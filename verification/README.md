# Rux kernel core: a verified model

Rux is a Linux-like kernel written in Rust. This project models the in-memory state machines at
its core in Dafny and proves what they are for: that the allocators neither lose nor hand out
memory twice and fail only when they must, that the path cache never lies, that locks exclude,
that the scheduler lets everybody run, and that buffers, directories and lists give back what was
put in.

Code that updates fields in place is a `class` whose methods are proved against a specification;
ghost fields say what the stored arrays and links represent. Pure recursion is a function, and the
semaphore protocol is a state machine over its atomic operations. The main results are stated for
every input, every reachable state or every run.

| module | models |
|---|---|
| `Bits`, `BuddyLists`, `BuddyLayout`, `BuddyInvariant`, `BuddyAllocator` | the kernel heap: free lists threaded through the metadata array, the layout of blocks, the invariant that joins them, the operations |
| `PageFrames` | the frame allocator, the per-CPU page caches, and the descriptor links they share |
| `SlabLists`, `Slab`, `SlabCache` | one slab cache: lists of slabs, free lists stored inside the objects |
| `Paths`, `RootFS`, `SymbolicLinks`, `LinkChains`, `RelativeLinks`, `PathCache`, `DirectoryEntries`, `RootFSOps` | pathnames, lookup, what symbolic links, chains of them and relative targets do to it, the path cache, adding and removing entries, the operations |
| `Semaphores`, `Scheduler`, `LoadBalance` | semaphores and mutexes, round robin, task migration |
| `PagedFile`, `Getdents`, `Pipe`, `Vma` | the page cache of a file, directory reading, the pipe buffer, memory areas |
| `Lists`, `ProcessTree` | intrusive circular lists and the tree of processes on top of them |
| `Basics`, `Sequences`, `Counting` | shared notions: optional values, neighbours in a list and removing from it, sizes of sets |

## What the proofs brought to light

The model follows the code. Where the code falls short of what its comments, tests or callers
expect, a lemma or method gives an input that shows it, and another the condition under which the
code is right; unless noted, the condition is exact.

- The buddy heap honours a requested alignment exactly up to 2 MiB (`AlignmentHonoured`), because
  the heap starts at 0x80A0_0000. Larger alignments are not refused: every fresh heap that is large
  enough grants them at an address that does not have them (`MisalignedAllocation`).
- The free links are 16 bits wide and 0xFFFF means "none". They tell the pages of a heap of 2^m
  pages apart exactly when m is at most 15 (`LinksFitIff`); the configured heap has 2^13.
- A contended `down` decrements the semaphore once for good, `down_interruptible` twice
  (`ContendedCosts`, `InterruptibleTakesTwo`). In every reachable
  state the semaphore can be acquired some time later exactly when fewer downs have been contended
  than it has permits (`AcquirableIff`), a mutex exactly when none has (`ContendedMutexIsDead`,
  `ContentionExample`); exclusion itself always holds.
- `unlink` leaves the path cache alone. The removed path is answered wrongly afterwards exactly when
  it was cached, even if a second entry of its name takes its place (`UnlinkStaleIffCached`,
  `StaleLookup`). Any other cached path stays right if its resolution does not use the removed entry.
  If a regular file was removed, or the only entry of that name, the whole cache stays right exactly
  when no cached path uses the entry (`UnlinkKeepsCacheIff`). If one of several links of the same name
  was removed, a path through it may lead to the same place again (`SecondLinkExample`), so there the
  condition is only sufficient.
- `create_file` does not normalize its path, lookup does. What was created is found again, or the older
  entry that hides it, if the path is absolute and free of `.` and `..` (`InsertedIsFound`); in a tree,
  with no link on the way of the normalized path, this is exact (`InsertedIsFoundIff`). Creating `/.`
  succeeds, but looking it up leads to the root (`DotFile`).
- A symbolic link that leads to a symbolic link is not followed further. Lookup is full resolution
  exactly on the paths where no link on the way leads to a link, or that full resolution does not
  find either (`FollowIsFullIffClean`, `LinkToLinkExample`).
- The relative target of a link is looked up in the root, not in the directory of the link, and `..`
  in it is taken for the name of an entry (`RelativeLinkExample`, `UpwardLinkExample`). The reference
  carries the directories on its way, from which `..` goes up and stops at the root. The two agree if
  every link on the way has an absolute target, or sits in the root and has a target without `..`
  (`AnchoredIsSpliced`). For a path with one link, in a tree without an entry `..` in the root, they
  agree exactly when that link is such a one or neither finds anything (`OneLinkPathIff`); with more
  links they may find the same node in different ways (`SameByChance`).
- Two tests of `path_normalize` expect `usr/local/../../bin` to become `../bin` and
  `a/b/c/../../..` to become `..`. The code yields `bin` and the empty path, which is what
  preserves the meaning (`CancelledPrefix`, `NormalizePreservesMeaning`).
- A frame without a page descriptor, pushed on a non-empty per-CPU list, cuts the list off
  (`PushIffDescribed`). Initializing a CPU again loses exactly the frames it has cached: they count as
  handed out from then on (`PageFrames.PageLayers.InitCpu`).
- Slab objects start 14 bytes into their page, so objects whose size is a multiple of four are
  never aligned to four bytes (`NeverWordAligned`).
- `merge` of two memory areas ignores the file position: the second area keeps its view exactly
  when the two are contiguous in the file (`MergeKeepsViewsIff`, `MergeExample`).
- A growing `truncate` adds no page; reads up to the size are complete exactly when the pages
  reach that far (`FullReadsIff`, `PagedFile.AddressSpace.Truncate`).
- A directory entry larger than the caller's count looks like the end of the directory: repeated
  calls stop exactly at the first such entry (`ReachedFirstOversize`, `ReadDirectory`).
- `find_busiest_cpu` may name a CPU that is not the busiest (`NotTheBusiest`). It names a busiest one
  exactly when the first CPU of the highest load exceeds the record of the scan before it by more
  than the threshold (`BusiestIff`); in any case it is within the threshold of it (`ChoiceBounds`).

## Model

| member | source | states |
|---|---|---|
| `Bits.XorPow2` | kernel/src/mm/buddy_allocator.rs:236-239 | exclusive-or with 2^k adds 2^k where bit k is clear and subtracts it where it is set |
| `BuddyLayout.BuddyPair` | kernel/src/mm/buddy_allocator.rs:236-239 | the buddy of an aligned block of order below m is aligned, inside the heap, adjacent and the buddy of its buddy; the lower of the two heads the block twice as large |
| `BuddyAllocator.OrderInRange` | kernel/src/mm/buddy_allocator.rs:291-306 | no block exceeds the heap, and exactly the block over the whole heap has its buddy index out of range, so the guard against larger orders never fires |
| `BuddyLists.PushWellLinked` | kernel/src/mm/buddy_allocator.rs:159-186 | the stores of an insertion keep every list an acyclic doubly linked list and keep `free` and `order` exact for all pages |
| `BuddyLists.UnlinkWellLinked` | kernel/src/mm/buddy_allocator.rs:189-211 | the stores of a removal, from any position, keep the same |
| `BuddyLayout.SplitPartition` | kernel/src/mm/buddy_allocator.rs:262-274 | splitting a block keeps the blocks an aligned partition of all heap pages |
| `BuddyLayout.MergePartition` | kernel/src/mm/buddy_allocator.rs:316-324 | merging a block with its buddy keeps the partition |
| `BuddyLayout.SplitNoFreeBuddies` | kernel/src/mm/buddy_allocator.rs:262-274 | splitting a live block creates no pair of free buddies |
| `BuddyLayout.MergeNoFreeBuddies` | kernel/src/mm/buddy_allocator.rs:316-324 | nor does a merge |
| `BuddyLayout.ReleaseNoFreeBuddies` | kernel/src/mm/buddy_allocator.rs:299-314 | releasing a block whose buddy is not free creates no pair of free buddies |
| `BuddyLayout.RunHasNoSmallBlock` | kernel/src/mm/buddy_allocator.rs:252-283 | with no free buddies, an aligned run of free pages holds no block smaller than the run |
| `BuddyLayout.FreeRunHasBlock` | kernel/src/mm/buddy_allocator.rs:252-283 | so a free run lies inside one free block of at least its order |
| `BuddyLayout.RunIffBlock` | kernel/src/mm/buddy_allocator.rs:252-283 | an aligned run of 2^k free pages exists if and only if a free block of order at least k does |
| `BuddyLayout.AllFreeIsOneBlock` | kernel/src/mm/buddy_allocator.rs:286-326 | without live blocks, a partition without free buddies is one block over the whole heap |
| `BuddyInvariant.TakeStep` | kernel/src/mm/buddy_allocator.rs:256-259 | taking a listed block keeps partition, lists, buddies and page counts consistent |
| `BuddyInvariant.SplitStep` | kernel/src/mm/buddy_allocator.rs:262-274 | so does one round of the split loop |
| `BuddyInvariant.MergeStep` | kernel/src/mm/buddy_allocator.rs:316-324 | so does one round of the merge loop |
| `BuddyInvariant.ReleaseStep` | kernel/src/mm/buddy_allocator.rs:299-314 | so does the release at the end of `free_blocks` |
| `BuddyInvariant.ProbeIsExact` | kernel/src/mm/buddy_allocator.rs:308-314 | `free` and `order` at one index tell exactly whether a free block of that order starts there, although interior pages and live blocks carry metadata too |
| `BuddyInvariant.EmptyListsMeanNoRun` | kernel/src/mm/buddy_allocator.rs:252-283 | with all lists from an order upwards empty, no aligned free run of that order exists |
| `BuddyInvariant.InitialRepresents` | kernel/src/mm/buddy_allocator.rs:123-147 | the state of `init` satisfies the invariant |
| `BuddyInvariant.AllFreedIsInitial` | kernel/src/mm/buddy_allocator.rs:286-326 | after every live block is freed, in any order, lists and heads are exactly those of `init` |
| `BuddyAllocator.SizeToOrder` | kernel/src/mm/buddy_allocator.rs:214-233 | the smallest order whose blocks hold the size |
| `BuddyAllocator.Allocator.Init` | kernel/src/mm/buddy_allocator.rs:123-147 | one free block over the heap, no live block; a second call changes nothing |
| `BuddyAllocator.Allocator.AddToFreeList` | kernel/src/mm/buddy_allocator.rs:159-186 | the page becomes the first of its list, all lists stay well linked; orders above the maximum are ignored |
| `BuddyAllocator.Allocator.RemoveFromFreeList` | kernel/src/mm/buddy_allocator.rs:189-211 | exactly that page leaves its list, which keeps its order, and is no longer tagged free |
| `BuddyAllocator.Allocator.SplitOff` | kernel/src/mm/buddy_allocator.rs:262-274 | one split: the block shrinks by one order, other live blocks keep theirs, the invariant holds |
| `BuddyAllocator.Allocator.MergeBuddy` | kernel/src/mm/buddy_allocator.rs:316-324 | one merge: the block grows by one order at the lower index, all other blocks remain as they were |
| `BuddyAllocator.Allocator.ProbeBuddy` | kernel/src/mm/buddy_allocator.rs:300-314 | the tests before a merge succeed exactly when the buddy is a free block of the same order |
| `BuddyAllocator.Allocator.AllocBlocks` | kernel/src/mm/buddy_allocator.rs:252-283 | null if and only if no aligned run of that order is free; otherwise such a run, free until now, becomes the one new live block, at the beginning of the first listed among the smallest free blocks that are large enough |
| `BuddyAllocator.FirstIsBestFit` | kernel/src/mm/buddy_allocator.rs:252-260 | the first block of the first non-empty list from the requested order on is a smallest free block that is large enough |
| `BuddyAllocator.BlockBytes` | kernel/src/mm/buddy_allocator.rs:242-244 | in bytes, every block lies inside the heap and no two blocks overlap |
| `BuddyAllocator.Allocator.FreeBlocks` | kernel/src/mm/buddy_allocator.rs:286-326 | exactly that block stops being live and the invariant, merging included, holds; the free block its pages belong to afterwards is the first of its list |
| `BuddyAllocator.NewOwner` | kernel/src/mm/buddy_allocator.rs:316-326 | if all other blocks remain as they were, the block that took the place of the freed one has its pages |
| `BuddyAllocator.Allocator.Alloc` | kernel/src/mm/buddy_allocator.rs:330-343 | the same, best fit included, for the order of the larger of size and alignment; null before initialization |
| `BuddyAllocator.Allocator.Dealloc` | kernel/src/mm/buddy_allocator.rs:345-369 | pointers outside the heap and oversized layouts are ignored, otherwise the block is given back as by `FreeBlocks` |
| `BuddyAllocator.Allocator.CountList` | kernel/src/mm/buddy_allocator.rs:417-434 | the walk along one list counts its blocks and their pages |
| `BuddyAllocator.Allocator.Stats` | kernel/src/mm/buddy_allocator.rs:406-439 | `used_bytes` is the total size of the live blocks, counts are list lengths, used and free add up to the heap |
| `BuddyAllocator.AlignmentHonoured` | kernel/src/mm/buddy_allocator.rs:330-343 | the returned address is a multiple of the requested alignment 2^a if and only if a is at most 21 |
| `BuddyAllocator.MisalignedAllocation` | kernel/src/mm/buddy_allocator.rs:330-343 | for every a from 22 on, a fresh heap of at least 2^a bytes grants the alignment 2^a at an address that is not a multiple of it |
| `BuddyAllocator.LinksFitIff` | kernel/src/mm/buddy_allocator.rs:171-183 | the 16-bit links tell all pages of a heap of 2^m pages apart, and from the null link, if and only if m is at most 15 |
| `PageFrames.PushIffDescribed` | kernel/src/mm/pcp.rs:117-124 | a push keeps the list if and only if the frame has a descriptor or the list was empty |
| `PageFrames.BumpKeeps` | kernel/src/mm/page.rs:208-226 | the bump path keeps both layers intact |
| `PageFrames.PopGlobalKeeps` | kernel/src/mm/page.rs:162-206 | so does popping the free list |
| `PageFrames.PushGlobalKeeps` | kernel/src/mm/page.rs:237-274 | so does pushing a handed-out frame on it, through the same link field the caches use |
| `PageFrames.PushCachedKeeps` | kernel/src/mm/pcp.rs:121-124 | so does pushing it on a per-CPU list |
| `PageFrames.PopCachedKeeps` | kernel/src/mm/pcp.rs:91-106 | so does popping a per-CPU list |
| `PageFrames.StoreKeeps` | kernel/src/mm/page_desc.rs:433-441 | the link of a handed-out frame may be overwritten |
| `PageFrames.FramesConserved` | kernel/src/mm/pcp.rs:87-183 | every frame below the bump pointer is in exactly one of the free list, one per-CPU list and the hands of callers, and the three sizes add up |
| `PageFrames.PageLayers.SetNextFree` | kernel/src/mm/page_desc.rs:528-554 | stores the link through the descriptor; without one nothing is stored |
| `PageFrames.PageLayers.Allocate` | kernel/src/mm/page.rs:160-226 | hands out the head of the free list or else the lowest frame never used, and nothing else moves; fails if and only if there is neither |
| `PageFrames.PageLayers.Deallocate` | kernel/src/mm/page.rs:228-275 | the frame becomes the head of the free list; frames below physical memory are ignored |
| `PageFrames.PageLayers.Refill` | kernel/src/mm/pcp.rs:134-156 | moves the next 16 frames of the supply, or as many as there are, to the front of the list, the last one first; succeeds if and only if there was one; hands nothing out |
| `PageFrames.PageLayers.DrainBatch` | kernel/src/mm/pcp.rs:166-181 | the first 16 frames of the list, or all of fewer, go to the free list, so that their order there is reversed |
| `PageFrames.PageLayers.Drain` | kernel/src/mm/pcp.rs:159-183 | as many frames from the front of the list as make whole batches down to the low-water mark go to the free list; the oldest stay in order |
| `PageFrames.PageLayers.PcpAlloc` | kernel/src/mm/pcp.rs:87-114 | hands out the first cached frame, or from an empty cache the last of a batch taken from the supply, whose other frames stay cached; fails if and only if cache and supply are exhausted |
| `PageFrames.PageLayers.PcpFree` | kernel/src/mm/pcp.rs:117-131 | the frame becomes the first of its list; at the high-water mark the newest 48 frames return to the free list; no other list changes |
| `PageFrames.PageLayers.InitCpu` | kernel/src/mm/pcp.rs:240-248 | empties the lists of that CPU and no others and marks it ready; exactly the frames cached there are lost, that is, count as handed out |
| `PageFrames.PageLayers.AllocPage` | kernel/src/mm/pcp.rs:272-282 | on a CPU with a cache, as `PcpAlloc` on the list of that CPU and type, all other lists unchanged; otherwise the next frame of the supply; fails only when both are exhausted |
| `PageFrames.PageLayers.FreePage` | kernel/src/mm/pcp.rs:288-297 | exactly that frame is no longer handed out: it is the first on the list of that CPU and type, from which the newest 48 frames return at the high-water mark, or without a cache the head of the free list; no other list changes |
| `PageFrames.PageLayers.FreeThenAlloc` | kernel/src/mm/pcp.rs:272-297 | a freed frame is the next one allocated on the same CPU for the same type, unless freeing it filled the cache: then it is the newest of those that stayed |
| `PageFrames.SupplyNext` | kernel/src/mm/page.rs:160-226 | the supply, the free list followed by the frames never used, is used up from the front, and is empty exactly when both are |
| `PageFrames.KeptFromHigh` | kernel/src/mm/pcp.rs:159-183 | draining from the high-water mark leaves exactly the low-water mark |
| `PageFrames.RefilledGives` | kernel/src/mm/pcp.rs:87-114 | what a refill and the following pop hand out and leave |
| `Slab.ObjectInPage` | kernel/src/mm/slab.rs:176-178 | every object lies inside its page behind the header |
| `Slab.FitsIff` | kernel/src/mm/slab.rs:104-109 | the objects of a slab are exactly those that end inside the page |
| `Slab.ObjectsFillPage` | kernel/src/mm/slab.rs:104-109 | they fill the page behind the header up to less than one more object |
| `Slab.ExhaustedIff` | kernel/src/mm/slab.rs:123-163 | no slab has a free object and no page is left if and only if every place for an object in every page is live |
| `Slab.ObjectsDisjoint` | kernel/src/mm/slab.rs:176-178 | different objects of any slabs do not overlap |
| `Slab.NeverWordAligned` | kernel/src/mm/slab.rs:176-178 | objects of a size divisible by four are never aligned to four bytes |
| `Slab.TakeObject` | kernel/src/mm/slab.rs:166-193 | following the link stored in the first free object leaves the rest of the free list |
| `Slab.PutObject` | kernel/src/mm/slab.rs:219-232 | writing the old head into a live object puts it in front of the free list |
| `Slab.WriteSlabs` | kernel/src/mm/slab.rs:123-163 | whatever is written inside a live object, every free list stays as it is |
| `Slab.FreshChain` | kernel/src/mm/slab.rs:272-286 | the links stored in a new slab lead through all its objects once |
| `Slab.LiveObjectsApart` | kernel/src/mm/slab.rs:123-202 | any two live objects are inside the used pages, behind the headers and disjoint |
| `Slab.ObjectsAddUp` | kernel/src/mm/slab.rs:166-250 | live objects and `free_objects` of a slab add up to `total_objects` |
| `SlabLists.MoveLinked` | kernel/src/mm/slab.rs:292-339 | moving a slab from any position of one list to the front of another keeps both doubly linked |
| `SlabCache.Cache.AllocFromSlab` | kernel/src/mm/slab.rs:166-202 | a free object of the first partial slab becomes live; a slab without free objects moves to the full list |
| `SlabCache.Cache.MoveToFull` | kernel/src/mm/slab.rs:292-314 | the slab changes lists, so that every slab is on the list that matches its free objects |
| `SlabCache.Cache.CreateSlab` | kernel/src/mm/slab.rs:253-289 | the next page becomes a slab of free objects, earlier pages are untouched; fails if and only if no page is left |
| `SlabCache.Cache.Alloc` | kernel/src/mm/slab.rs:123-163 | null if and only if every place for an object in every page is live; otherwise the first free object of the first partial slab, or the first of a new slab, which was not live, becomes live |
| `SlabCache.Cache.FindSlab` | kernel/src/mm/slab.rs:403-416 | finds the slab of every address in the pages in use and of no other |
| `SlabCache.Cache.MoveFromFull` | kernel/src/mm/slab.rs:317-339 | the same in the other direction, from any position of the full list |
| `SlabCache.Cache.Free` | kernel/src/mm/slab.rs:205-250 | exactly that object stops being live and only its bytes change; pointers outside the slab pages are refused |
| `SlabCache.Cache.FreeThenAlloc` | kernel/src/mm/slab.rs:123-250 | a freed object is the next one allocated if its slab was full or is the first partial one; otherwise the first free object of that one is |
| `SlabCache.Cache.OwnerStore` | kernel/src/mm/slab.rs:123-163 | the owner of a live object may store anything anywhere in it without harming the cache |
| `Paths.PathNormalize` | kernel/src/fs/path.rs:209-278 | computes the normalization the lemmas below are about |
| `Paths.NormalizePreservesMeaning` | kernel/src/fs/path.rs:209-278 | from every directory, the normalized path leads where the original leads, `..` stopping at the root |
| `Paths.NormalizeIsNormal` | kernel/src/fs/path.rs:209-278 | no `.`, no empty component, `..` only in front of a relative path, single slashes |
| `Paths.NormalIffFixed` | kernel/src/fs/path.rs:209-278 | the paths in normal form are exactly those normalization leaves alone; normalizing twice is normalizing once |
| `Paths.AbsoluteIsCanonical` | kernel/src/fs/path.rs:228-252 | an absolute path normalizes to the name of the place it leads to |
| `Paths.CancelledPrefix` | kernel/src/fs/path.rs:236-247 | going down through names and up as often contributes nothing to a relative path |
| `Paths.Collapse` | kernel/src/fs/path.rs:225-252 | the loop over the components keeps the stack the specification builds |
| `Paths.Rebuild` | kernel/src/fs/path.rs:254-277 | components joined by single slashes, behind one slash when absolute |
| `Paths.ComponentsOfRender` | kernel/src/fs/path.rs:164-186 | splitting undoes rebuilding |
| `Paths.PathComponents.Next` | kernel/src/fs/path.rs:164-186 | yields the remaining components one by one, in order, and then nothing |
| `RootFS.FindInStable` | kernel/src/fs/rootfs.rs:243-284 | a child once found is still found after others are appended |
| `RootFS.LookupFollowStable` | kernel/src/fs/rootfs.rs:1009-1051 | a lookup that succeeds keeps its result, through all symbolic links, when the graph only grows |
| `SymbolicLinks.FollowIsWalk` | kernel/src/fs/rootfs.rs:628-663 | without a symbolic link before the last component, following links is the plain walk |
| `SymbolicLinks.WalkImpliesFollow` | kernel/src/fs/rootfs.rs:628-663 | what the plain walk finds, following links finds too |
| `SymbolicLinks.LookupFollowIsWalk` | kernel/src/fs/rootfs.rs:628-663 | both facts for whole paths, and the two lookups are equal once the link budget is spent |
| `SymbolicLinks.LookupFollowBudget` | kernel/src/fs/rootfs.rs:983-1051 | a smaller link budget never changes an answer, it only turns answers into failures |
| `SymbolicLinks.LinkCycleFails` | kernel/src/fs/rootfs.rs:983-1051 | whatever leads into a cycle of symbolic links, of any length, in any directories, behind any other links, fails as soon as the path goes on, and otherwise yields at most a link |
| `SymbolicLinks.TwoLinkCycle` | kernel/src/fs/rootfs.rs:983-1002 | the ordinary case: a path through `/a` fails where `/a` leads to `/b` and `/b` to `/a`, or `/a` to itself |
| `LinkChains.ChainResolvesIff` | kernel/src/fs/rootfs.rs:983-1002 | of links each of which leads through the next, one resolves if and only if the links from it on and the depth together do not exceed 40 |
| `LinkChains.ChainLookup` | kernel/src/fs/rootfs.rs:983-1051 | a path through the first link of a chain is found exactly as far as the chain fits that budget |
| `LinkChains.LongestChain` | kernel/src/fs/rootfs.rs:983-1051 | for any number of different names there is such a chain; from depth 0 an entry behind up to 40 links is found and one behind more is not |
| `SymbolicLinks.FollowIsFullIffClean` | kernel/src/fs/rootfs.rs:983-1051 | lookup is full resolution, which follows links that lead to links, where no link on the way leads to a link, and fails elsewhere; the two are equal if and only if the path is clean or full resolution fails too |
| `SymbolicLinks.FoundIsClean` | kernel/src/fs/rootfs.rs:1024-1043 | a path that is found is clean |
| `SymbolicLinks.LinkToLinkExample` | kernel/src/fs/rootfs.rs:1024-1036 | a path through a link to a link to a directory: full resolution finds the file in it, lookup fails |
| `RelativeLinks.AnchoredIsSpliced` | kernel/src/fs/rootfs.rs:983-1002 | if every link on the way is absolute, or in the root with a target without `..`, lookup ends where resolution from the directories of the links ends |
| `RelativeLinks.OneLinkPathIff` | kernel/src/fs/rootfs.rs:983-1051 | in a tree without an entry `..` in the root, for directories, one link and any rest without links: the two agree if and only if the link is such a one or neither finds anything |
| `RelativeLinks.RelativeLink` | kernel/src/fs/rootfs.rs:994-1001 | through a link with a relative target, lookup goes on from the entry of the root, the reference from that of the link's own directory |
| `RelativeLinks.RelativeLinkExample` | kernel/src/fs/rootfs.rs:994-1001 | a graph with `/d/l` leading to `e`: the reference finds `/d/e/x` as `/d/l/x`, lookup fails |
| `RelativeLinks.UpwardLinkExample` | kernel/src/fs/rootfs.rs:994-1001 | a graph with `/l` leading to `../d`: the reference finds `/d/x` as `/l/x`, lookup fails |
| `RelativeLinks.SameByChance` | kernel/src/fs/rootfs.rs:983-1051 | behind a relative link outside the root, two further links to one place make both find the same node |
| `PathCache.CacheAgreesStable` | kernel/src/fs/rootfs.rs:98-131 | a cache that agrees with the graph agrees with every graph grown from it |
| `PathCache.CachedLookup` | kernel/src/fs/rootfs.rs:584-625 | on an agreeing cache the cached lookup is the uncached one, and what it adds agrees too |
| `PathCache.LookupByKind` | kernel/src/fs/rootfs.rs:584-625 | an absolute path is followed from the root; a relative one is refused unless nothing remains of it or its first component begins with `..`, and then followed from the root too |
| `PathCache.HashIsFnv` | kernel/src/fs/rootfs.rs:89-96 | the hash is FNV-1a in 64 bits, byte after byte |
| `PathCache.FoundIsCached` | kernel/src/fs/rootfs.rs:611-624 | a path that was found is answered from the resulting cache, whatever becomes of the graph |
| `DirectoryEntries.InsertedIsWalked` | kernel/src/fs/rootfs.rs:388-421 | after an insertion the plain walk over the components leads to the new node, unless an older entry of that name hides it |
| `DirectoryEntries.ParentForAnswers` | kernel/src/fs/rootfs.rs:388-421 | by what the plain walk finds: accepted if and only if all but the last component lead to a directory and, where asked for, the last name is not in it; otherwise the error of the first component that is missing or no directory, or that the entry exists |
| `DirectoryEntries.InsertedIsFound` | kernel/src/fs/rootfs.rs:388-421 | looking up an absolute path without `.` and `..` after its insertion finds the same |
| `DirectoryEntries.InsertedIsFoundIff` | kernel/src/fs/rootfs.rs:388-421 | in a tree, with no link on the way of the normalized path, it does so if and only if the path has no `.` or `..` |
| `RootFSOps.DotFile` | kernel/src/fs/rootfs.rs:388-421 | creating `/.` succeeds, and looking it up leads to the root |
| `DirectoryEntries.UnlinkStaleIffCached` | kernel/src/fs/rootfs.rs:721-769 | after an unlink the cached lookup of the path is right if and only if the path was not cached, also when a second entry of that name appears |
| `DirectoryEntries.UnlinkKeepsCacheIff` | kernel/src/fs/rootfs.rs:721-769 | cached paths that do not use the removed entry stay right; if it was that of a regular file, or the only one of its name, the whole cache stays right if and only if no cached path uses it |
| `DirectoryEntries.FileIsLast` | kernel/src/fs/rootfs.rs:1009-1051 | a path that uses the entry of a regular file and leads anywhere, leads to that file |
| `DirectoryEntries.FileRemoved` | kernel/src/fs/rootfs.rs:721-769 | after the removal it leads to the next entry of that name, if any |
| `DirectoryEntries.SecondLinkExample` | kernel/src/fs/rootfs.rs:721-769 | two links of one name to one directory: a path through the removed one leads to the same node afterwards |
| `DirectoryEntries.UnusedEntry` | kernel/src/fs/rootfs.rs:721-769 | a lookup that does not use the removed entry, on its way or through links, is unaffected |
| `DirectoryEntries.UsedEntry` | kernel/src/fs/rootfs.rs:721-769 | one that uses it fails when no other entry has that name |
| `RootFSOps.StaleLookup` | kernel/src/fs/rootfs.rs:584-625 | create, look up, unlink, look up: the removed node is still found, though an uncached lookup finds nothing |
| `RootFSOps.FileSystem.FindChild` | kernel/src/fs/rootfs.rs:275-284 | the first child of that name |
| `RootFSOps.FileSystem.HashIndex` | kernel/src/fs/rootfs.rs:89-96 | the loop computes the 64-bit hash, wrapping included, and the bucket |
| `RootFSOps.FileSystem.CacheLookup` | kernel/src/fs/rootfs.rs:98-117 | the node of the bucket if its path is the one asked for |
| `RootFSOps.FileSystem.CacheAdd` | kernel/src/fs/rootfs.rs:119-131 | overwrites exactly one bucket |
| `RootFSOps.FileSystem.FollowPath` | kernel/src/fs/rootfs.rs:1009-1051 | the loop with recursive link resolution terminates on every graph and computes the specified lookup |
| `RootFSOps.FileSystem.FollowLinkInternal` | kernel/src/fs/rootfs.rs:983-1002 | normalizes the target and looks it up with one link level less |
| `RootFSOps.FileSystem.WalkPath` | kernel/src/fs/rootfs.rs:628-663 | the loop computes the plain walk |
| `RootFSOps.FileSystem.LookupPath` | kernel/src/fs/rootfs.rs:584-625 | the answer and the new cache for any cache; in every state reached by creations and lookups, the answer of the uncached lookup and a cache that stays right |
| `RootFSOps.FileSystem.AddChild` | kernel/src/fs/rootfs.rs:243-246 | the new node is the last child and the cache still agrees |
| `RootFSOps.FileSystem.CreateFile` | kernel/src/fs/rootfs.rs:388-421 | if the plain walk of all but the last component leads to a directory, the file is its last child and nothing else changes; otherwise the error says whether a component is missing or no directory, and nothing changes; the cache stays right |
| `RootFSOps.FileSystem.CreateDir` | kernel/src/fs/rootfs.rs:432-476 | the same for a directory, and FileExists if the walk finds the last name, too |
| `RootFSOps.CreateTwice` | kernel/src/fs/rootfs.rs:432-476 | the second `create_dir` of a path answers FileExists, a `mkdir` of it succeeds |
| `RootFSOps.FileSystem.Mkdir` | kernel/src/fs/rootfs.rs:678-717 | the same without looking for an existing name |
| `RootFSOps.FileSystem.Symlink` | kernel/src/fs/rootfs.rs:917-957 | the same for a symbolic link |
| `RootFSOps.FileSystem.Link` | kernel/src/fs/rootfs.rs:492-581 | the same for a copy of a regular file under its inode number; directories and links are refused, an existing new path with FileExists |
| `RootFSOps.FileSystem.Unlink` | kernel/src/fs/rootfs.rs:721-769 | by what the plain walk finds: the first entry of that name leaves its directory and nothing else changes, or the error fits a missing component, one that is no directory, a missing entry or a directory |
| `Semaphores.RunKeepsAccounts` | kernel/src/sync/semaphore.rs:84-124 | in every interleaving the initial value is what the count, the holders and the failed decrements add up to |
| `Semaphores.AtMostValueHold` | kernel/src/sync/semaphore.rs:84-124 | after any run of any number of threads, at most the initial value of them hold the semaphore |
| `Semaphores.MutualExclusion` | kernel/src/sync/semaphore.rs:305-349 | two threads that hold a mutex are the same thread |
| `Semaphores.DownSucceedsIff` | kernel/src/sync/semaphore.rs:84-91 | in every reachable state a fresh down succeeds at once if and only if holders, pending returns and all contended downs so far leave a permit |
| `Semaphores.SlowGrows` | kernel/src/sync/semaphore.rs:93-124 | the first decrement of a contended down is never given back |
| `Semaphores.ContendedCosts` | kernel/src/sync/semaphore.rs:84-224 | without a permit, `down` costs one for good and `down_interruptible` two; a failed `down_trylock` leaves the state as it was, a failed second attempt in the wait loop too, but for parking the thread |
| `Semaphores.UncontendedRestores` | kernel/src/sync/semaphore.rs:84-250 | with a permit, every kind of down acquires, and `up` then restores the state |
| `Semaphores.LoopAcquires` | kernel/src/sync/semaphore.rs:97-105 | a waiting thread that sees a permit and is not overtaken acquires it |
| `Semaphores.LoopParks` | kernel/src/sync/semaphore.rs:97-124 | seeing none, it parks and wakes up without any change |
| `Semaphores.BlockedUntilHeld` | kernel/src/sync/semaphore.rs:93-124 | in every run, a thread inside a waiting down stays inside until it holds the semaphore |
| `Semaphores.ExhaustedForever` | kernel/src/sync/semaphore.rs:93-124 | after as many contended downs as permits, no move of any run gives a thread the semaphore |
| `Semaphores.StillAcquirable` | kernel/src/sync/semaphore.rs:84-124 | with fewer, some continuation does: holders release, owing threads give back, and any thread goes on |
| `Semaphores.AcquirableIff` | kernel/src/sync/semaphore.rs:84-124 | in every reachable state the semaphore can be acquired some time later if and only if fewer downs have been contended than it has permits |
| `Semaphores.ContendedMutexIsDead` | kernel/src/sync/semaphore.rs:305-349 | a mutex can be acquired some time later if and only if it has never been contended |
| `Semaphores.InterruptibleTakesTwo` | kernel/src/sync/semaphore.rs:157-171 | after a contended `down_interruptible` the semaphore can be acquired some time later if and only if the permits lost before and two more are fewer than it had |
| `Semaphores.ContentionExample` | kernel/src/sync/semaphore.rs:84-91 | any two threads locking and the first unlocking leave the mutex without a holder and with count 0 |
| `Scheduler.PickApproaches` | kernel/src/sched/sched.rs:362-389 | a pick returns the waiting task or brings the index strictly closer to its slot |
| `Scheduler.WaitIsBounded` | kernel/src/sched/sched.rs:362-389 | a task that stays ready in its slot is passed over fewer times than its distance, whatever else changes between picks |
| `Scheduler.PickedWithinARound` | kernel/src/sched/sched.rs:362-389 | so 256 picks in a row include it |
| `Scheduler.PickIsNearest` | kernel/src/sched/sched.rs:362-389 | the choice that bounded waiting is about is the nearest Running task, in terms of the slots alone |
| `Scheduler.RunQueue.PickNextTask` | kernel/src/sched/sched.rs:362-389 | if some slot holds a Running task other than the current one, the index moves to the nearest such slot and every slot passed over is empty, holds the current task or one that is not Running; otherwise the index stays and the answer is the current task if it is Running, else the idle task |
| `Scheduler.RunQueue.StealTask` | kernel/src/sched/sched.rs:1264-1300 | removes the last task that is neither current nor process 0 and closes the gap, or changes nothing when there is none; holes are kept, and a queue without holes stays so |
| `Scheduler.RunQueue.EnqueueTaskLocked` | kernel/src/sched/sched.rs:1350-1358 | appends the task; a full queue drops it |
| `LoadBalance.MigrationBalances` | kernel/src/sched/sched.rs:1302-1348 | a migration keeps the multiset of all tasks, leaves the source at least as loaded as the destination and lowers the sum of squared loads by at least four |
| `LoadBalance.MigrationsAreFinite` | kernel/src/sched/sched.rs:1302-1348 | n migrations without arrivals need an initial sum of squares of at least 4n |
| `LoadBalance.RunKeepsTasks` | kernel/src/sched/sched.rs:1326-1340 | however the steals and insertions of all CPUs interleave between the locks, queued, carried and dropped tasks together stay the same |
| `LoadBalance.NothingDropped` | kernel/src/sched/sched.rs:1350-1353 | no task is dropped in any interleaving while all tasks together fit in one queue |
| `LoadBalance.FindBusiestCpu` | kernel/src/sched/sched.rs:1235-1262 | computes the choice the three lemmas below are about |
| `LoadBalance.BusiestIff` | kernel/src/sched/sched.rs:1235-1262 | the choice is a busiest CPU if and only if the first CPU of the highest load exceeds the record before it by more than the threshold |
| `LoadBalance.NotTheBusiest` | kernel/src/sched/sched.rs:1235-1262 | loads 0, 3, 5, 0 make CPU 0 choose CPU 1 |
| `LoadBalance.ChoiceBounds` | kernel/src/sched/sched.rs:1235-1262 | the choice exceeds this CPU by more than the threshold and no CPU exceeds it by more; without a choice none exceeds this CPU by more |
| `LoadBalance.MoveOne` | kernel/src/sched/sched.rs:1326-1340 | whatever the loads by then, the last movable task of the source, if any, moves to the end of the destination; a full destination drops it |
| `LoadBalance.BalanceLoad` | kernel/src/sched/sched.rs:1302-1348 | either nothing changes or exactly one task, neither current nor process 0, migrates from the chosen CPU to this one, which had at most one; such a CPU stays as it is only if loads are within the threshold or the chosen CPU has no movable task |
| `PagedFile.FullReadsIff` | kernel/src/fs/buffer.rs:126-172 | every read gets all bytes up to the end if and only if the pages reach that far |
| `PagedFile.StoreBytes` | kernel/src/fs/buffer.rs:75-83 | storing inside one page changes those file offsets and no others |
| `PagedFile.WrittenAppend` | kernel/src/fs/buffer.rs:177-216 | storing piece after piece is storing the whole |
| `PagedFile.AddressSpace.Read` | kernel/src/fs/buffer.rs:126-172 | delivers as many bytes as asked for, up to the end of the file or of the pages; each written byte reads back as last written, across pages; the rest of the buffer is untouched |
| `PagedFile.AddressSpace.Write` | kernel/src/fs/buffer.rs:177-216 | afterwards the file holds the data at the offset and every other written byte as before; size and pages grow as needed and no further |
| `PagedFile.ReadBack` | kernel/src/fs/buffer.rs:126-216 | reading what was just written yields it, in any state of the file |
| `PagedFile.AddressSpace.LoadFromBytes` | kernel/src/fs/buffer.rs:221-246 | afterwards the file is exactly the data |
| `PagedFile.AddressSpace.Truncate` | kernel/src/fs/buffer.rs:249-258 | bytes from the new size on are forgotten, the others kept; every byte is backed by a page if and only if the old pages reach the new size; pages behind it are dropped |
| `Getdents.BytesRoundTrip` | kernel/src/fs/vfs.rs:952-961 | little-endian bytes read back as the number, cut to the width of the field |
| `Getdents.ParseRecords` | kernel/src/fs/vfs.rs:938-981 | parsing by `d_reclen` recovers from the printed records every inode number, type and name, names up to a zero byte |
| `Getdents.ParseOffsets` | kernel/src/fs/vfs.rs:938-981 | parsing by `d_off` recovers the same, for records of any length |
| `Getdents.SeenIffPlain` | kernel/src/fs/vfs.rs:952-977 | entries come back unchanged if and only if their inode numbers fit and their names contain no zero byte |
| `Getdents.ReachedFirstOversize` | kernel/src/fs/vfs.rs:946-948 | repeated calls come to a halt exactly at the first record larger than the count |
| `Getdents.ReadDirectory` | kernel/src/fs/vfs.rs:933-984 | calling until nothing comes ends, and the parsed pieces show, in order and once each, the inode number, the type 4, 8 or 10 and the name of every child before the first oversize record; they are the whole listing if and only if every record fits the count and every entry its fields |
| `Getdents.ListingGrows` | kernel/src/fs/vfs.rs:933-939 | an offset into a directory means the same after entries are added |
| `Getdents.DirContext.StoreRecord` | kernel/src/fs/vfs.rs:950-977 | the buffer changes by exactly the fields of one record, one behind the other |
| `Getdents.DirContext.PrintEntries` | kernel/src/fs/vfs.rs:938-981 | as many records as fit, each where the one before ends |
| `Getdents.DirContext.GetDents` | kernel/src/fs/vfs.rs:918-984 | the offset advances by as many entries as fit; the 8-aligned output parses, by `d_reclen` or by `d_off`, to exactly those entries; missing paths, other nodes and offsets past the end |
| `Pipe.PipeBuffer.AvailableRead` | kernel/src/fs/pipe.rs:101-110 | the number of bytes in the buffer |
| `Pipe.PipeBuffer.AvailableWrite` | kernel/src/fs/pipe.rs:113-122 | what is left of the capacity, one less than the size |
| `Pipe.SegmentExtend` | kernel/src/fs/pipe.rs:79-98 | storing behind the used segment, around the end of the array, appends to it |
| `Pipe.PipeBuffer.Read` | kernel/src/fs/pipe.rs:54-76 | takes bytes off the front; what was ever delivered followed by the content is what was ever accepted; a non-empty pipe gives a non-empty buffer something |
| `Pipe.PipeBuffer.Write` | kernel/src/fs/pipe.rs:79-98 | appends as many bytes as there is room for, and keeps that |
| `Pipe.PipeBuffer.WriteNonblocking` | kernel/src/fs/pipe.rs:270-304 | without waiting, the write loop accepts as much as fits, with the error codes for a closed reader and a full pipe |
| `Pipe.PipeBuffer.WriteBlocking` | kernel/src/fs/pipe.rs:270-326 | with any readers coming in whenever the writer sleeps, the bytes accepted are a prefix of the data in order, all of it unless the pipe is full and nobody is left to wait; as many readers with room as there are bytes suffice |
| `Vma.SplitKeepsViews` | kernel/src/mm/vma.rs:255-285 | replacing an area by its two halves is never refused, keeps order and the flags, type and file position of every address; merging the halves restores the area |
| `Vma.SplitIff` | kernel/src/mm/vma.rs:255-285 | an area can be split at an address if and only if it contains it and a page boundary lies above its start and not above the address; the highest such boundary is the cut |
| `Vma.OverlapsIff` | kernel/src/mm/vma.rs:236-239 | areas overlap if and only if they share an address |
| `Vma.ReplaceBySplit` | kernel/src/mm/vma.rs:347-407 | removing an area and adding the two halves of its split succeeds, and leaves flags, type and file position of every address as they were |
| `Vma.MergeKeepsViewsIff` | kernel/src/mm/vma.rs:287-303 | a merge keeps every address of the second area as it was if and only if the areas are contiguous in the file |
| `Vma.MergeIff` | kernel/src/mm/vma.rs:287-303 | an area merges with a higher one if and only if some area has exactly their addresses with the permissions and type of both, and that is the result |
| `Vma.MergeExample` | kernel/src/mm/vma.rs:287-303 | two mappings of the beginning of a file, one behind the other, are merged, and the second then shows the next page of the file |
| `Vma.Manager.Add` | kernel/src/mm/vma.rs:347-362 | refused if and only if the area overlaps another; otherwise inserted in order |
| `Vma.Manager.Find` | kernel/src/mm/vma.rs:367-381 | the reverse search with early exit agrees with a search of all areas |
| `Vma.Manager.Remove` | kernel/src/mm/vma.rs:400-407 | exactly the area with that start goes |
| `Lists.ListMemory.Init` | kernel/src/list.rs:46-49 | a node on no list, or alone already, is alone in its circle; all other lists unchanged |
| `Lists.ListMemory.IsEmpty` | kernel/src/list.rs:54-56 | whether the head is alone in its circle |
| `Lists.ListMemory.Add` | kernel/src/list.rs:67-75 | a node on no list with others, initialized or not, comes behind any given node of a list; every other list is unchanged |
| `Lists.ListMemory.AddTail` | kernel/src/list.rs:86-94 | such a node comes in front of any given node, in front of the head being the end of the list; every other list is unchanged |
| `Lists.ListMemory.Del` | kernel/src/list.rs:102-112 | the list closes up and the node is alone again; every other list is unchanged |
| `ProcessTree.AddWoven` | kernel/src/process/task.rs:1047-1057 | adding a child keeps circles, parents and children in step |
| `ProcessTree.RemoveWoven` | kernel/src/process/task.rs:1071-1083 | so does removing one |
| `ProcessTree.Tree.AddChild` | kernel/src/process/task.rs:1047-1057 | the task becomes the last child of its parent, all other families unchanged |
| `ProcessTree.Tree.RemoveChild` | kernel/src/process/task.rs:1071-1083 | exactly that child leaves |
| `ProcessTree.Tree.FirstChild` | kernel/src/process/task.rs:983-998 | the child added first, if any |
| `ProcessTree.Tree.NextSibling` | kernel/src/process/task.rs:1008-1024 | the child added next; none after the last, and none for a task without a parent |
| `ProcessTree.Tree.Walk` | kernel/src/process/task.rs:983-1024 | walking from the first child along the siblings visits every child once, in order of insertion, and stops |

## Left out

- BuddyAllocator.Allocator.Dealloc: a pointer into the heap must be that of a live block with the layout it was allocated for; what a wrong pointer or a double free does is not modelled.
- BuddyAllocator.Allocator.constructor: heaps of more than 2^15 pages or of a size that is not a power of two are not modelled; the magic number and the stored heap bounds are constants here.
- PageFrames.PageLayers.AllocPage: frames that the bump pointer would take from beyond the described range are excluded; what a frame without a descriptor does to a list is stated by `PushIffDescribed`.
- PageFrames.PageLayers.PcpAlloc: the same.
- PageFrames.PageLayers.Refill: the same.
- PageFrames.PageLayers.Allocate: the same.
- PageFrames.PageLayers.Deallocate: pop and push of the free list are atomic here; the retry loops, reference counts, flags and the mode without descriptors are not modelled.
- SlabCache.Cache.constructor: `kmalloc` and `kfree` over several caches and the 4096-byte cache, whose objects do not fit behind the header, are not modelled; nor are the statistics counters.
- SlabCache.Cache.Alloc: the list of wholly free slabs, which no code fills, is not modelled.
- RootFSOps.FileSystem.LookupPath: agreement of the cache is proved for runs without `unlink`, `rmdir` and `rename`, which do not update it; what `unlink` does to it is stated by `UnlinkKeepsCacheIff`, `rmdir` and `rename` are not modelled.
- DirectoryEntries.UnlinkKeepsCacheIff: where one of several links of the same name is removed, only the sufficient direction is stated, since another link of that name may lead to the same place.
- DirectoryEntries.InsertedIsFoundIff: with a link on the way of the normalized path only the sufficient direction is stated, by `InsertedIsFound`, since a link with a target like `../d` may lead below an entry named `..`.
- RelativeLinks.AnchoredIsSpliced: for paths with several links only the sufficient direction is stated; targets are normalized before they are resolved, as in the source, so `..` behind a link in a target is lexical.
- Semaphores.AtMostValueHold: the wait queue and wake-ups are free moves of the environment, the current task is always available, and the 32-bit count does not wrap.
- LoadBalance.BalanceLoad: one call is one step here; `RunKeepsTasks` lets other CPUs run between its locks, where loads may have changed when a task is taken, so that only conservation is promised.
- Scheduler.RunQueue.EnqueueTaskLocked: a task in a slot at or above `nr_running`, which only other code leaves there, may be overwritten; it is not part of the queue.
- PagedFile.AddressSpace.Read: contents of bytes never written are whatever a fresh page holds; empty slots of the page vector, which no operation creates, are not modelled.
- Getdents.DirContext.GetDents: the ext4 arm is not modelled; for records of 64 KiB and more in a buffer of that size, whose length does not fit `d_reclen`, nothing is promised about parsing by that field.
- Pipe.PipeBuffer.WriteBlocking: sleeping and waking are taken as given; that a sleeping writer is ever woken is not promised, and blocking reads are not modelled.
- Lists.ListMemory.Del: links are maps from node to node; raw-pointer aliasing beyond that is not modelled.
- Networking, signals, ext4, ELF loading, procfs, devices, page tables, context switching and boot code.
