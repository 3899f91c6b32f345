# Verified model of the kernel's memory, index and scheduling code

Six parts of the kernel are modelled, each twice. One module of a pair describes
the operations as functions on values and holds the theorems about every state
and every run. The other one is a class with the fields, pointers and loops of
the source; each of its methods is proved to do what the function does.

| part | on values | in memory |
|---|---|---|
| page allocator, page tables | `Paging` | `Pmm`, `Vmm` |
| kernel heap | `Heap` | `KernelHeap` |
| slab allocator | `Slab` | `SlabCache` |
| hash table, its purges | `Table` | `HashTable`, `Purge`, `VnodePurge` |
| vnode references | `Vnodes` | `VnodeStore` |
| threads, scheduler | `Threads`, `Scheduler`, `Dispatch`, `Wheels`, `Fairness` | `KernelThreads` |
| sleeping mutex | `Mutex` | `SleepingMutex` |

`Bits`, `Lists`, `Links` and `Options` are shared. The page table format is that of
4-level paging, section 4.5 of the Intel 64 and IA-32 Architectures Software
Developer's Manual, Volume 3A.

Main results:

- Page tables are a flat map from pages to entries. Fresh tables never alias
  existing ones, and upper halves stay shared (`Paging`).
- The heap stays tiled and canonical, and `kfree` undoes `kmalloc` exactly on
  canonical lists (`Heap`); from boot this holds up to the first growth, and what
  that loses or leaves is stated exactly (`KernelHeap`).
- Slab chains are exactly the free objects, and live objects are disjoint (`Slab`).
- The hash table is a map; the purges remove exactly the matching entries and
  release each one once (`Table`, `Purge`, `VnodePurge`).
- Dropping a vnode reference frees exactly the chain of ancestors that only it
  kept (`Vnodes`).
- The selection loop of the scheduler ends exactly when there is a thread to run; a
  tick picks the least cooldown and loses nobody; strides give exact shares and
  bounded waiting (`Scheduler`, `Dispatch`, `Fairness`).
- The mutex is safe and first-in first-out over every interleaving (`Mutex`).

Where a promise fails in a part of its range, a theorem gives the exact condition:
`Paging.MapThenResolve` (flags with page bits), `Paging.MapAndAgreement` (a new
top-level slot in the upper half), `Heap.ServedExactlyWithinLimit` (wrap-around of
sizes), `KernelHeap.GrowthNeedsTop`, `KernelHeap.GrowthBelowEnd`,
`KernelHeap.GrowthFromBoot` and `KernelHeap.GrowthRestarts` (`init_kheap` leaves
`heap_current` at a page in use; inputs `KernelHeap.FirstGrowth`,
`KernelHeap.FailedGrowth` and `KernelHeap.TwoRequests`), `Heap.FreeUndoesAlloc`,
`Slab.AlignUpWraps` (wrap-around of object sizes), `Slab.FreeFacts` and
`Slab.FreeUndoesAlloc` (slabs of one object), `Vnodes.SetParentSucceeds` and
`Vnodes.ReattachSucceeds` (input `Vnodes.ReattachFails`), `Vnodes.SetParentAcyclic`,
`Threads.UnblockFacts` (a current thread that is marked blocked),
`Scheduler.EndsExactly` (input `Scheduler.KernelBlockedAlone`),
`Mutex.SecondAcquireHangs` (input `Mutex.TwoAcquiresHang`), `Mutex.ReleaseFacts`.

Machine words are natural numbers; wrap-around is written out where it
matters (hash, heap and slab roundings). Addresses name objects, 0 is NULL. What the
machine or another allocator decides (does `kmalloc` succeed, which page or address
comes back, is the owning process a zombie) is a parameter. `hcf()` is a result
that says so.

## Model

| member | source | states |
|---|---|---|
| Pmm.PageAllocator.constructor | src/arch/x86_64/mem/pmm/pmm.c:12-42 | the pages reserved at boot are exactly those that a byte of the bitmap lies in |
| Pmm.PageAllocator.AllocPage | src/arch/x86_64/mem/pmm/pmm.c:44-56 | gives the first free page and marks it; failure changes nothing |
| Pmm.PageAllocator.FreePage | src/arch/x86_64/mem/pmm/pmm.c:58-70 | frees exactly the page of the address; addresses below the region are ignored |
| Pmm.MaskIsShift | src/arch/x86_64/mem/pmm/pmm.c:8-10 | the bit of page i inside its byte is 1 shifted by i % 8 |
| Paging.PathIsPage | src/arch/x86_64/mem/vmm/vmm.c:56-91 | the four table indices agree exactly when bits 12 to 47 do |
| Paging.AllocIsFresh | src/arch/x86_64/mem/vmm/vmm.c:42-54 | a new table is a page that is no existing table |
| Paging.ZeroLooksEmpty | src/arch/x86_64/mem/vmm/vmm.c:42-54 | a zeroed table has no present entry at any depth, so nothing is mapped below it |
| Paging.WalkFacts | src/arch/x86_64/mem/vmm/vmm.c:56-91 | walk keeps separation and what every table resolves to, and ends in the last-level table of the path |
| Paging.WalkHaltsWhenFull | src/arch/x86_64/mem/vmm/vmm.c:56-91 | walk halts the machine if and only if the path misses more tables than pages are free |
| Paging.WalkIsLocal | src/arch/x86_64/mem/vmm/vmm.c:56-91 | walk writes no existing table at or above the level it starts from, except that one |
| Paging.OneParentEntry | src/arch/x86_64/mem/vmm/vmm.c:56-91 | two walks, from one root or two, meet in a table only along equal indices: one parent entry for each table below a root |
| Paging.MapRefinesFlatMap | src/arch/x86_64/mem/vmm/vmm.c:93-98 | vmm_map is one update of the flat map from pages to entries, whichever lower tables it creates, seen by exactly the spaces that share the subtree; the entry has bits 12 to 51 of physical, every bit of flags and the present bit, and no other |
| Paging.WalkStores | src/arch/x86_64/mem/vmm/vmm.c:56-91 | walk leaves every entry it finds, and the entries it adds have the present and the write bit and no other flag |
| Paging.UnmapRefinesFlatMap | src/arch/x86_64/mem/vmm/vmm.c:100-108 | vmm_unmap clears exactly one page entry, if it was present |
| Paging.MapThenResolve | src/arch/x86_64/mem/vmm/vmm.c:93-119 | after vmm_map the page resolves to physical plus offset if and only if flags sets no page bit that physical lacks; other pages resolve as before |
| Paging.UnmapThenResolve | src/arch/x86_64/mem/vmm/vmm.c:100-119 | after vmm_unmap exactly that page resolves to 0 |
| Paging.MapHaltsWhenFull | src/arch/x86_64/mem/vmm/vmm.c:93-98 | vmm_map halts if and only if free pages are fewer than missing tables |
| Paging.CreateSpaceFacts | src/arch/x86_64/mem/vmm/vmm.c:178-198 | a new space agrees with the current one in the upper half and maps nothing in the lower half; existing spaces are untouched |
| Paging.AgreeingSpacesResolveAlike | src/arch/x86_64/mem/vmm/vmm.c:110-119 | spaces with equal upper halves resolve every upper-half address alike |
| Paging.MapAndAgreement | src/arch/x86_64/mem/vmm/vmm.c:93-98 | agreement survives vmm_map if and only if the address is in the lower half or its top-level slot was present |
| Paging.RunKeepsInv | src/arch/x86_64/mem/vmm/vmm.c:42-129 | separation of tables holds over every run of map, unmap, load and create, with other users taking, returning and writing pages in between |
| Paging.SharedSlotsStayShared | src/arch/x86_64/mem/vmm/vmm.c:178-198 | addresses under a shared top-level slot resolve alike in both spaces after every run |
| Paging.RunKeepsAgreement | src/arch/x86_64/mem/vmm/vmm.c:178-198 | full upper-half agreement after every run that stays in the slots present at creation |
| Paging.IdentityMapResolves | src/arch/x86_64/mem/vmm/vmm.c:147-159 | every page of a usable region resolves to itself after the loop, present and writable and with no other flag; every other page has the entry it had |
| Paging.InitTablesResolves | src/arch/x86_64/mem/vmm/vmm.c:131-162 | after init_vmm usable memory is identity mapped, writable, and the rest of the upper half has the boot loader's entries |
| Vmm.Pager.AllocTable | src/arch/x86_64/mem/vmm/vmm.c:42-54 | on pages in memory: the same page, or halt, as the allocation on values |
| Vmm.Pager.NextTable | src/arch/x86_64/mem/vmm/vmm.c:56-91 | one level of walk in memory |
| Vmm.Pager.Walk | src/arch/x86_64/mem/vmm/vmm.c:56-91 | the three-level descent in memory is the recursive walk on values |
| Vmm.Pager.MapPage | src/arch/x86_64/mem/vmm/vmm.c:93-98 | the store in memory is Map, including when it halts |
| Vmm.Pager.UnmapPage | src/arch/x86_64/mem/vmm/vmm.c:100-108 | the store in memory is Unmap |
| Vmm.Pager.ResolveAddress | src/arch/x86_64/mem/vmm/vmm.c:110-119 | resolves as Resolve and changes nothing |
| Vmm.Pager.LoadCr3 | src/arch/x86_64/mem/vmm/vmm.c:121-129 | switches to an existing root and keeps the invariant |
| Vmm.Pager.CreateAddressSpace | src/arch/x86_64/mem/vmm/vmm.c:178-198 | the copying loop builds CreateSpace |
| Vmm.Pager.IdentityMapRegion | src/arch/x86_64/mem/vmm/vmm.c:147-159 | the page loop is IdentityMap |
| Vmm.Pager.InitVmm | src/arch/x86_64/mem/vmm/vmm.c:131-162 | the loop over regions is InitTables |
| Heap.TiledSpan | src/klibc/kmem/kheap.c:30-128 | sizes plus headers of all blocks add up to the span of the heap |
| Heap.AllocServes | src/klibc/kmem/kheap.c:71-103 | a pointer means a new live block, aligned to 8 and large enough, all others kept; no pointer exactly when nothing fits and too few pages are left, which are then gone; only growth needs heap_current to be the end of the list |
| Heap.ServedExactlyWithinLimit | src/klibc/kmem/kheap.c:45-103 | requests are served if and only if they are at most 2^64 - 4128: beyond it the roundings wrap |
| Heap.FreeFacts | src/klibc/kmem/kheap.c:105-128 | kfree drops exactly one live block, keeps the tiling and leaves no two free neighbours |
| Heap.AllocKeepsCanonical | src/klibc/kmem/kheap.c:71-103 | kmalloc never puts two free blocks side by side |
| Heap.FreeUndoesAlloc | src/klibc/kmem/kheap.c:30-128 | kfree(kmalloc(n)) restores the block list if and only if no two free blocks were neighbours, when served without growth |
| Heap.FitIsTight | src/klibc/kmem/kheap.c:30-43 | the first free block that fits is taken; it is split exactly when a header and a byte fit behind the request, so less than 40 bytes are wasted; no other block changes |
| Heap.GrowthIsTight | src/klibc/kmem/kheap.c:45-69 | growth adds the fewest pages that hold request and header, as one used block at heap_current |
| Heap.RunKeepsInv | src/klibc/kmem/kheap.c:71-128 | tiling up to heap_current, canonical form and the size balance hold over every run from such a state |
| Heap.RunWithoutGrowth | src/klibc/kmem/kheap.c:71-128 | a run that never comes to map a page keeps tiling and canonical form from any sound list, wherever heap_current is |
| Heap.BootRun | src/klibc/kmem/kheap.c:6-28 | from boot, as long as kmalloc does not come to map a page, the heap is the first page, tiled, canonical, with disjoint payloads |
| Heap.LivePayloadsDisjoint | src/klibc/kmem/kheap.c:71-128 | live payloads are disjoint, inside the heap and aligned to 8 |
| Heap.RestartedRun | src/klibc/kmem/kheap.c:45-128 | from the one-block heap that the first growth can leave, the invariant holds over every run |
| KernelHeap.GrowthFollows | src/klibc/kmem/kheap.c:45-102 | growth from the end of the list, or refused, or without a page, leaves the list it should in memory |
| KernelHeap.GrowthNeedsTop | src/klibc/kmem/kheap.c:45-102 | after a growth that returns a pointer memory still describes the old blocks, up to the new heap_current, if and only if the old one was the end of the last block |
| KernelHeap.GrowthBelowEnd | src/klibc/kmem/kheap.c:45-102 | with heap_current below the end of the list, a request that no block fits leaves headers and payloads as they are if and only if the size check refuses it or no page can be had; running out of pages half way loses them too |
| KernelHeap.GrowthFromBoot | src/klibc/kmem/kheap.c:6-102 | with heap_current where init_kheap leaves it, the same for the headers alone |
| KernelHeap.GrowthRestarts | src/klibc/kmem/kheap.c:45-102 | the first growth after boot replaces the first page: the heap is then the new block alone if the page had been split, otherwise the one header names itself and memory describes no list |
| KernelHeap.FindHangs | src/klibc/kmem/kheap.c:78-91 | the walk of kheap_alloc never ends at a used header that names itself |
| KernelHeap.MergeHangs | src/klibc/kmem/kheap.c:114-127 | the loop of kheap_free never ends at a header that names itself, also the one being freed |
| KernelHeap.FindEndsOnLists | src/klibc/kmem/kheap.c:78-91 | on memory that describes a list the walk ends |
| KernelHeap.FirstGrowth | src/klibc/kmem/kheap.c:6-128 | the failing input: boot and one request beyond the first page, after which no kmalloc or kfree returns |
| KernelHeap.FailedGrowth | src/klibc/kmem/kheap.c:6-103 | the failing input: boot and one request for more pages than there are; kmalloc returns NULL and the only header is gone |
| KernelHeap.TwoRequests | src/klibc/kmem/kheap.c:6-103 | the failing input: boot, a small request and one beyond the first page; both get the same pointer, and only the second block is left |
| KernelHeap.KernelHeap.constructor | src/klibc/kmem/kheap.c:6-28 | with a page, a sound one-block heap with heap_current at its base; without one, no list |
| KernelHeap.KernelHeap.SplitBlock | src/klibc/kmem/kheap.c:30-43 | splitting headers in memory is Split |
| KernelHeap.KernelHeap.RequestMoreMemory | src/klibc/kmem/kheap.c:45-69 | mapping page by page loses the headers in all pages mapped, also when the pages run out half way; then the new header is stored |
| KernelHeap.KernelHeap.AppendBlock | src/klibc/kmem/kheap.c:93-102 | growth and the hook to the last block, exactly; which list memory then describes, when heap_current was its end and when the heap restarts |
| KernelHeap.KernelHeap.FindBlock | src/klibc/kmem/kheap.c:71-92 | the walk over headers finds the first fit, otherwise the last block |
| KernelHeap.KernelHeap.KheapAlloc | src/klibc/kmem/kheap.c:71-103 | for every size_t request: Alloc, unless it comes to map a page while heap_current is not the end of the list, and then exactly which headers are left, and a sound heap again when it restarts |
| KernelHeap.KernelHeap.TakeTurn | src/klibc/kmem/kheap.c:114-127 | in the list that memory describes, a free block swallows its free neighbour, otherwise the loop goes on to the next block |
| KernelHeap.KernelHeap.MergePass | src/klibc/kmem/kheap.c:112-127 | the merging loop is Coalesce |
| KernelHeap.KernelHeap.KheapFree | src/klibc/kmem/kheap.c:105-128 | kheap_free on headers in memory is Free |
| Slab.AlignUpFacts | src/klibc/kmem/slab.c:3-6 | the least multiple at or above, for powers of two |
| Slab.AlignUpWraps | src/klibc/kmem/slab.c:3-6 | rounding up a size is exact if and only if it is at most 2^64 less the alignment; above that it gives 0, and slab.c:84 divides by it |
| Slab.AcceptedGeometry | src/klibc/kmem/slab.c:81-90 | a size that does not wrap is accepted if and only if one object fits behind the header; every slab then has as many objects as fit, so the zero-object exit of slab_init is never taken |
| Slab.ObjectInPage | src/klibc/kmem/slab.c:8-12 | objects lie behind the header in their page, and masking an address gives back its slab |
| Slab.ObjectsDisjoint | src/klibc/kmem/slab.c:43-54 | different objects, of one slab or two, do not overlap |
| Slab.ObjectAligned | src/klibc/kmem/slab.c:24-54 | objects are aligned for every power of two from 8 to a page |
| Slab.FreshChainOk | src/klibc/kmem/slab.c:43-54 | the free chain of a new slab holds each object once |
| Slab.FreshChainOrder | src/klibc/kmem/slab.c:43-54 | the chain goes down in steps of the object size and ends right behind the header |
| Slab.AllocFacts | src/klibc/kmem/slab.c:112-156 | exactly one object becomes live, of the first partial slab, of a new page only without one; the fallback is taken exactly with no free object and no page |
| Slab.FreeFacts | src/klibc/kmem/slab.c:158-208 | exactly one object stops being live; a wholly free slab is kept if and only if it holds a single object |
| Slab.FreeUndoesAlloc | src/klibc/kmem/slab.c:112-208 | freeing what was just allocated restores the cache if and only if no slab was added or slabs hold two or more objects |
| Slab.AllocTakesLastFreed | src/klibc/kmem/slab.c:112-208 | the object freed last is handed out next, when its slab was full or is the first partial one |
| Slab.RunKeepsInv | src/klibc/kmem/slab.c:95-208 | chains are exactly the free objects, partial slabs have some, full ones none, no slab is on two lists, none is idle, over every run |
| Slab.LiveObjectsDisjoint | src/klibc/kmem/slab.c:112-156 | live objects of a cache never overlap |
| Slab.CachesDisjoint | src/klibc/kmem/slab.c:112-156 | nor do live objects of two caches that share no slab page |
| SlabCache.SlabCache.constructor | src/klibc/kmem/slab.c:58-93 | an accepted cache starts empty with the geometry of Slab.AcceptedGeometry; size 0 gives none, alignments below a word become one |
| SlabCache.SlabCache.InitSlab | src/klibc/kmem/slab.c:14-56 | header and threaded words of a new slab hold the full chain |
| SlabCache.SlabCache.PopObject | src/klibc/kmem/slab.c:95-103 | takes the head of the chain, and the header then holds the rest of it |
| SlabCache.SlabCache.PushObject | src/klibc/kmem/slab.c:105-110 | a header and words that hold a chain hold it with the object in front afterwards |
| SlabCache.SlabCache.Unlink | src/klibc/kmem/slab.c:143-147 | the pointer-to-pointer loop takes the slab out and keeps the order of the rest |
| SlabCache.SlabCache.SlabAlloc | src/klibc/kmem/slab.c:112-156 | slab_alloc on linked headers is Alloc |
| SlabCache.SlabCache.SlabFree | src/klibc/kmem/slab.c:158-208 | slab_free on linked headers is Free |
| Table.Fnv1aHash | src/klibc/kmem/hashtable.c:3-16 | the loop is 64-bit FNV-1a with wrap-around |
| Table.HashOfMore | src/klibc/kmem/hashtable.c:3-16 | each byte goes in with a bitwise exclusive or, and the product by the prime follows |
| Table.PublishedHash | src/klibc/kmem/hashtable.c:3-16 | the published FNV-1a value of the string a |
| Table.LookupIsModel | src/klibc/kmem/hashtable.c:20-36 | the table agrees with its map on every key, and its size is the number of entries |
| Table.SetRefinesMap | src/klibc/kmem/hashtable.c:38-75 | hashtable_set is a map update; it fails exactly for a new key without memory, and then changes nothing |
| Table.RemoveRefinesMap | src/klibc/kmem/hashtable.c:90-117 | hashtable_remove is removal of one key and reports whether it was there |
| Table.RemoveUndoesSet | src/klibc/kmem/hashtable.c:38-117 | removing the key just set restores the map if and only if the key was new |
| HashTable.HashTable.constructor | src/klibc/kmem/hashtable.c:139-157 | an empty table with linked buckets |
| HashTable.HashTable.GetEntry | src/klibc/kmem/hashtable.c:20-36 | the walk over next pointers finds the entry of the key |
| HashTable.HashTable.Get | src/klibc/kmem/hashtable.c:77-88 | on linked entries: the lookup |
| HashTable.HashTable.Set | src/klibc/kmem/hashtable.c:38-75 | on linked entries: the update, with prev and next of every bucket correct and entry_count the size |
| HashTable.HashTable.Remove | src/klibc/kmem/hashtable.c:90-117 | on linked entries: the removal, links and count kept |
| HashTable.HashTable.Destroy | src/klibc/kmem/hashtable.c:119-137 | every entry is freed once |
| HashTable.JoinedFacts | src/klibc/kmem/hashtable.c:119-137 | the freed entries are all entries of all buckets, without repetition |
| Purge.PurgedByValue | src/fs/vfs/path.c:113-136 | what is left is the map without the value, and the size drops by the number of matches |
| Purge.NamecacheRemoveLocked | src/fs/vfs/path.c:101-110 | removes one key and releases its value |
| Purge.PurgeVnodeLocked | src/fs/vfs/path.c:113-136 | the restarting walk ends, keeps every other entry in order and releases the vnode once for each entry removed |
| VnodePurge.WordRoundTrip | src/fs/vfs/vnode.c:16-21 | eight key bytes read as a word and written back are the same bytes |
| VnodePurge.NumberRoundTrip | src/fs/vfs/vnode.c:16-21 | a word written as key bytes and read back is the same word |
| VnodePurge.ByteAt | src/fs/vfs/vnode.c:16-21 | the bytes of a key word come least significant first |
| VnodePurge.MatchesExactly | src/fs/vfs/vnode.c:261-297 | the key of (v, n) matches w exactly when v is w |
| VnodePurge.MatchRebuilt | src/fs/vfs/vnode.c:300-304 | a matching key is rebuilt from the node id alone |
| VnodePurge.AllMatchesFacts | src/fs/vfs/vnode.c:261-297 | the collected keys are the matching keys of the map, each once |
| VnodePurge.ReleasesCount | src/fs/vfs/vnode.c:300-318 | a vnode is released as often as there are removed keys that name it |
| VnodePurge.WalkBucket | src/fs/vfs/vnode.c:261-297 | counting and collecting see the same entries |
| VnodePurge.VfsPurgeVnodes | src/fs/vfs/vnode.c:254-325 | of all keys made for any file system exactly those of this one go, with their vnodes released; without memory nothing happens |
| Vnodes.DroppedIsExact | src/fs/vfs/vnode.c:52-76 | dropping a reference removes the freed chain, takes one from the survivor and touches nothing else |
| Vnodes.FreedChainFacts | src/fs/vfs/vnode.c:52-147 | the chain goes from parent to parent, all with count one, and is as long as possible |
| Vnodes.UnrefFacts | src/fs/vfs/vnode.c:52-147 | vnode_unref by a holder never halts, frees exactly that chain and leaves every count right |
| Vnodes.ClearParentFacts | src/fs/vfs/vnode.c:82-94 | vnode_clear_parent drops exactly the reference the child held |
| Vnodes.FreedHasNoHandle | src/fs/vfs/vnode.c:129-147 | nothing that a handle keeps is freed |
| Vnodes.SetParentSucceeds | src/fs/vfs/vnode.c:96-112 | vnode_set_parent reaches its end if and only if dropping the old parent does not free the new one; a caller holding the new parent, or giving NULL, is safe |
| Vnodes.ReattachSucceeds | src/fs/vfs/vnode.c:96-112 | attaching a child again to its parent fails if and only if the child holds the only reference to it |
| Vnodes.ReattachFails | src/fs/vfs/vnode.c:96-112 | such an input |
| Vnodes.SetParentCounts | src/fs/vfs/vnode.c:96-112 | whenever it reaches its end every count is right, the child has the new parent and as much of the name as fits, exactly the chain that only the child kept is gone and nothing else changes |
| Vnodes.SetParentAcyclic | src/fs/vfs/vnode.c:96-112 | parents stay acyclic if and only if the child is not the new parent or one of its ancestors |
| Vnodes.RunKeepsInv | src/fs/vfs/vnode.c:46-147 | over every run count = handles + children naming the vnode, and no call halts |
| VnodeStore.VnodeStore.VnodeUnref | src/fs/vfs/vnode.c:52-76 | the recursion in place is Unref and ends |
| VnodeStore.VnodeStore.VnodeFree | src/fs/vfs/vnode.c:129-147 | frees the vnode after releasing its parent |
| VnodeStore.VnodeStore.VnodeClearParent | src/fs/vfs/vnode.c:82-94 | in place: ClearParent; on a store with right counts it never halts and keeps them right |
| VnodeStore.VnodeStore.VnodeSetParent | src/fs/vfs/vnode.c:96-112 | in place: SetParent; by a holder of the new parent that makes no cycle, or with NULL, it never halts and keeps counts and forest |
| VnodeStore.VnodeStore.VnodeRef | src/fs/vfs/vnode.c:46-50 | a reference kept by its caller is one more handle, and every count stays handles plus children |
| VnodeStore.VnodeStore.VnodePut | src/fs/vfs/vnode.c:246-252 | a holder gives its handle back: no halt, exactly the chain it kept is freed, every count stays right |
| VnodeStore.VnodeStore.VnodeAlloc | src/fs/vfs/vnode.c:114-127 | the new vnode has no child and its caller the only handle; every count stays right |
| Threads.SlotExists | src/scheduling/thread.c:165-192 | the "no slots" branch of thread_create is never taken |
| Threads.CreateFacts | src/scheduling/thread.c:64-210 | a thread is made exactly with room and memory: ready, with a new id, the given priority and no cooldown, in the lowest free slot, at the end of the queue; no other thread or slot changes |
| Threads.FromTidFacts | src/scheduling/thread.c:43-59 | finds the one live thread with the id |
| Threads.UnblockFacts | src/scheduling/thread.c:230-259 | exactly a live blocked thread with the id becomes ready at the end of the queue, and nothing else changes; both error returns change nothing; the invariant is kept if and only if that is not the current thread |
| Threads.BlockFacts | src/scheduling/thread.c:212-228 | stops exactly a live thread other than the kernel's and takes it off the queue; the order of the rest and all other threads stay |
| Threads.ExitFacts | src/scheduling/thread.c:261-289 | ends exactly a current thread other than the kernel's; only its peers are marked |
| Threads.AddFacts | src/scheduling/scheduler.c:90-113 | add_to_ready_queue puts a thread at the end once; a second call changes nothing |
| Threads.RemoveFacts | src/scheduling/scheduler.c:115-146 | removes exactly one thread from the queue, in place |
| Threads.CleanUpAll | src/scheduling/thread.c:324-363 | clean_up leaves exactly the threads that are not terminated, each in its slot, and the queue as it was; the count is right |
| Threads.InitOk | src/scheduling/thread.c:365-401 | init_threading establishes the invariant |
| Scheduler.StrideHalves | src/scheduling/scheduler.c:37-56 | each step of priority halves the stride; values off the scale count as normal |
| Scheduler.FallbackIsFirst | src/scheduling/scheduler.c:208-229 | with an empty queue the ready thread in the lowest slot is taken; failing that the kernel thread unless terminated |
| Scheduler.TurnDecreases | src/scheduling/scheduler.c:196-266 | a turn that is repeated lowers (live threads, total cooldown, queue length) unless the loop is stuck; a stuck loop repeats for ever |
| Scheduler.EndsExactly | src/scheduling/scheduler.c:196-278 | from every state the selection loop ends if and only if the kernel thread is not blocked, or a queued thread that is no zombie's or a ready thread of the table can be run |
| Scheduler.KernelBlockedAlone | src/scheduling/scheduler.c:224-240 | the failing input: the blocked kernel thread alone in the table, as at boot |
| Scheduler.TurnFacts | src/scheduling/scheduler.c:196-270 | one turn keeps the invariant, including zombie skips, table fallback and requeues |
| Scheduler.SelectFacts | src/scheduling/scheduler.c:196-278 | the loop always dispatches a thread, which is then the one that runs |
| Scheduler.TickFacts | src/scheduling/scheduler.c:153-279 | after a tick a thread runs, the invariant holds and exactly the terminated threads are gone |
| Dispatch.EnterExact | src/scheduling/scheduler.c:153-194 | the interrupted thread is appended to the queue exactly if it was running or ready; the rest of the queue stays, also when it was blocked or terminated |
| Dispatch.TickDispatches | src/scheduling/scheduler.c:153-279 | whatever was interrupted: the tick dispatches the queued thread with the least cooldown, the first of these; the others stay queued in cyclic order with cooldowns lowered once a look; nobody is lost and no other thread changes |
| Dispatch.TickFallsBack | src/scheduling/scheduler.c:208-229 | with only zombies queued the first ready thread of the table runs and the queue is empty |
| Scheduler.RunKeepsGood | src/scheduling/thread.c:64-400 | over every run: thread_count is the number of occupied slots, slot 0 is occupied, live ids are distinct, the queue holds ready threads once each |
| Wheels.ExactCount | src/scheduling/scheduler.c:241-254 | the exact number of dispatches after any number of visits |
| Wheels.CycleRounds | src/scheduling/scheduler.c:241-254 | in whole rounds every position comes up once a round |
| Fairness.VisitSpins | src/scheduling/scheduler.c:196-270 | one visit rotates the ring by one and dispatches the head exactly when its cooldown is 0 |
| Fairness.DispatchesCount | src/scheduling/scheduler.c:196-270 | dispatches over any stretch of visits are those of the wheel |
| Fairness.ExactShare | src/scheduling/scheduler.c:37-56 | over any 32 n consecutive visits, across ticks, a thread of stride s is dispatched exactly 32 / s times |
| Fairness.ShareDoubles | src/scheduling/scheduler.c:37-56 | one step of priority doubles the number of dispatches |
| Fairness.BoundedWaiting | src/scheduling/scheduler.c:153-278 | with n runnable threads a thread of stride s runs at the end of one of any s n consecutive ticks |
| Fairness.TicksAreVisits | src/scheduling/scheduler.c:153-278 | k ticks are at least k visits with the same dispatches |
| Fairness.BootIsFair | src/scheduling/thread.c:365-411 | the state after init_threading meets the hypotheses of the two theorems above |
| KernelThreads.Kernel.constructor | src/scheduling/thread.c:365-401 | the tables and queue pointers at boot |
| KernelThreads.Kernel.EnqueueReadyTail | src/scheduling/scheduler.c:58-74 | appends to the linked queue, tail kept last |
| KernelThreads.Kernel.DequeueReadyHead | src/scheduling/scheduler.c:76-88 | takes the first element, tail NULL when empty |
| KernelThreads.Kernel.AddToReadyQueue | src/scheduling/scheduler.c:90-113 | on pointers: Add |
| KernelThreads.Kernel.RemoveFromReadyQueue | src/scheduling/scheduler.c:115-146 | on pointers: the queue without the thread, links outside it untouched |
| KernelThreads.Kernel.ConsiderThread | src/scheduling/scheduler.c:234-270 | on pointers: what happens to a candidate |
| KernelThreads.Kernel.SchedulerTick | src/scheduling/scheduler.c:153-279 | on pointers, with its loops: Tick |
| KernelThreads.Kernel.CleanUpTable | src/scheduling/thread.c:324-363 | on pointers: CleanUp |
| KernelThreads.Kernel.ThreadFromTid | src/scheduling/thread.c:43-59 | the loop over slots is FromTid |
| KernelThreads.Kernel.ThreadCreate | src/scheduling/thread.c:64-210 | on pointers: Create |
| KernelThreads.Kernel.ThreadUnblock | src/scheduling/thread.c:230-259 | on pointers: Unblock |
| KernelThreads.Kernel.ThreadBlock | src/scheduling/thread.c:212-228 | on pointers: Block |
| Mutex.RunIsSafe | src/scheduling/mutex.c:17-79 | over every interleaving, also with code that runs without a current thread: at most one is between its acquire and its release, and it is the owner; threads leave the waiter list in the order in which their acquire met a locked mutex; waiter_count is the list length |
| Mutex.InitIsSafe | src/scheduling/mutex.c:4-15 | init_mutex gives a state from which the runs above start |
| Mutex.ReleaseFacts | src/scheduling/mutex.c:48-79 | a release changes something if and only if its caller is recorded as owner (NULL on a free mutex) and there is something to free or to wake |
| Mutex.ReleaseUndoesAcquire | src/scheduling/mutex.c:17-79 | a release restores the state before the acquire if and only if nobody waits |
| Mutex.SecondAcquireHangs | src/scheduling/mutex.c:17-79 | a locked mutex can be freed by some run if and only if its owner is not waiting for it |
| Mutex.TwoAcquiresHang | src/scheduling/mutex.c:17-46 | the failing input: any thread that acquires twice |
| SleepingMutex.SleepingMutex.constructor | src/scheduling/mutex.c:4-15 | a free mutex without waiters |
| SleepingMutex.SleepingMutex.Acquire | src/scheduling/mutex.c:21-43 | the critical section on shared next fields, also without a current thread on a free mutex; the waiter list and the ready queue stay disjoint |
| SleepingMutex.SleepingMutex.Release | src/scheduling/mutex.c:53-78 | on pointers: Release, the woken thread going to the end of the ready queue |
| SleepingMutex.SleepingMutex.Tick | src/scheduling/scheduler.c:153-279 | a scheduler tick with its clean_up leaves the mutex and its list of sleeping waiters intact |

## Left out

- Paging: huge pages and other entries that lead to no table are excluded by the invariant of `Paging`, and so is a managed page 0, because `walk` ignores the huge bit and address 0 means failure.
- Paging.InitTablesResolves: the loop that maps the page bitmap at the higher half (src/arch/x86_64/mem/vmm/vmm.c:164-175), CR3 and TLB invalidation are not modelled; regions lie below 2^48 and start on a page.
- Paging: the state after a halt is not described.
- Heap.RunKeepsInv: starts from a list that ends at `heap_current` and has room below the top of the address space; `init_kheap` maps the first page without advancing `heap_current` (src/klibc/kmem/kheap.c:8, 20-24), so from boot `Heap.BootRun` says what holds up to the first growth, `KernelHeap.GrowthRestarts` what that does, and `Heap.RestartedRun` what follows when it leaves a list.
- KernelHeap.KernelHeap.KheapAlloc: the page tables that `vmm_map` adds on the way are not counted against the free pages, `heap_current` does not wrap, and a header stored where no page is mapped (sizes that wrap) does not fault; the words that callers write into payloads are not described. Once memory describes no list no later call is described, except that `KernelHeap.FirstGrowth` shows they hang.
- Slab.FreeFacts: ends with the slab unlinked and its page unmapped; the page goes back through a higher-half subtraction although it is identity mapped (src/klibc/kmem/slab.c:203-206).
- SlabCache.SlabCache.SlabAlloc: the `kmalloc` fallback, constructors and destructors, `slab_destroy` and freeing an object that is not live are not part of this model.
- SlabCache.SlabCache.constructor: alignments are powers of two up to a page, which align_up needs, and sizes do not wrap (`Slab.AlignUpWraps` says when they do).
- HashTable.HashTable.constructor: starts once the bucket array has been allocated; a table of capacity 0 would divide by zero in the source.
- Purge.NamecacheRemoveLocked: works on stored keys; lookups by name are left out because the tail of a name key is not initialised (src/fs/vfs/path.c:5-9).
- VnodePurge.VfsPurgeVnodes: the releases are a log; what the cache owes for them is not accounted, because insertion takes no reference (src/fs/vfs/vnode.c:164, 239, 315), and `vnode_get` and `vnode_cache_lookup` are left out because the latter never writes its result (src/fs/vfs/vnode.c:169-186).
- Vnodes.RunKeepsInv: file system callbacks and wrap-around of counts are not modelled; a caller holds what it releases or attaches, and makes no cycle.
- Scheduler: the schedule lock is not modelled, as `scheduler_tick` takes it again while it holds it (src/scheduling/scheduler.c:176-177, 236-237, 120); every queue operation is one step. Contexts, stacks and the TSS are left out.
- Scheduler.RunKeepsGood: `thread_terminate` clears `next` before it unlinks (src/scheduling/thread.c:317-320) and is not a step; thread ids do not wrap; `thread_unblock` is called while the current thread is running; a zombie thread can still be dispatched through the table.
- Threads.CreateFacts: which process owns the thread is only visible as its zombie mark; `process.c` is not part of this model.
- Threads.ExitFacts: on values only, as the process bookkeeping of thread_exit belongs to `process.c`.
- Fairness.ExactShare: assumes the runnable threads stay the same, with cooldowns below their strides, as after boot (`Fairness.BootIsFair`).
- Mutex.RunIsSafe: code without a current thread does not meet a locked mutex, where the source writes through NULL (src/scheduling/mutex.c:31-32); a waiter takes no step until the mutex wakes it, so `thread_unblock` and termination of a waiter are excluded; progress is not claimed, because a wake between the spinlock release and `thread_block` is lost.
- SleepingMutex.SleepingMutex.Acquire: the kernel thread does not wait, as `thread_block` would halt the machine; the call of `thread_block` that follows is `KernelThreads.Kernel.ThreadBlock`.
- Drivers, interrupts, descriptor tables, `process.c`, mounts, `printf.c`, string helpers and the terminal are not part of this model; they have no algorithm of this kind.
