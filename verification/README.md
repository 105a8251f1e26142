# PbOS: a Dafny model of the kernel's data structures, allocators and state machines

The project models the parts of the PbOS kernel on which the rest is built, and proves what they
promise. One file holds one component.

| file | component |
|---|---|
| `Shape.dfy`, `LinkedShape.dfy`, `RBTree.dfy` | the parent-pointer red-black tree of kfxx: red-black facts on values, the links of a tree node by node, and the tree on the heap |
| `Keys.dfy`, `Arith.dfy` | ordered lookups on a set of keys, with the contracts proved for the tree, and the arithmetic of rounding and dividing |
| `Kima.dfy`, `Slots.dfy` | the KIMA heap allocator, and the pages of slots in which it keeps its descriptors |
| `PageTable.dfy` | the x86-64 four-level page table (section 4.5 of the Intel SDM, Volume 3A) |
| `List.dfy`, `Buckets.dfy`, `BucketLists.dfy`, `HashSet.dfy` | the doubly linked list, the elements of buckets, many lists without common nodes and rehashing in place, and the chained hash set on them |
| `PgAlloc.dfy` | physical pages, their reference counts and free lists |
| `RecMutex.dfy` | the recursive mutex as interleaved atomic steps |
| `Paths.dfy` | path resolution with counted references |
| `Vmr.dfy` | virtual memory regions |
| `Pids.dfy`, `Sched.dfy` | process identifiers and the round-robin scheduler |
| `I64Div.dfy` | software 64-bit multiplication and division |

Code that changes objects is modelled by classes whose methods are proved against a specification:
a ghost tree or sequence, a flat map, a multiset. `Valid()` is what every operation requires and
keeps, so it holds after every sequence of operations. Components that use the tree only as an ordered
map use `Keys.FloorKey` and `Keys.NextKey`, whose contracts are those of `FindMaxLteq` and `GetNext`.

What the outside world answers is a parameter: whether an allocation succeeds, which fresh region or
frame it gives, what a file system finds. Integers are unbounded unless wrapping matters: the page
table, the region probe and the division work modulo 2^64.

## Where the code does not do what is expected of it

Each is modelled as it is, with the exact condition under which the expectation holds.

- `kh_mmap` on a range that ends at 2^64 reports success and maps nothing (`PageTable.AddressSpace.Mmap`,
  `PageTable.TopPageIsMissed`).
- First-fit in `kima_alloc` never places a block over one page more than its size needs
  (`Kima.CandidateIff`); it misses a usable place in some pool exactly for blocks of at most a page that are
  larger than their alignment (`Kima.FirstFitCompleteIff`, `Kima.StraddlingPlaceIsMissed`).
- `kima_alloc` rounds up to the alignment after the limit test, so a block of at most a page whose size is not
  a multiple of its alignment can be put partly on a page without a descriptor (`Kima.StaysInRunIff`, `Kima.ReachSpill`).
- `HashSetImpl::_insert` that gives up after overwriting a key drops the front element of the bucket
  (`HashSetModel.HashSet.Insert`, `HashSetModel.LostElement`), and the load bound is lost when a resize that is due
  fails without being forced (`HashSetModel.LostLoad`).
- `List::_prepend` does not write the back link of the node (`ListModel.List.Prepend`, `ListModel.PrependBreaks`).
- `hal_unlock_spinlock` assigns its own parameter (`RecMutex.NeverAgain`, `RecMutex.ReachesRelease`); all other mutex results hold for
  the intended unlock and for this one alike, except `RecMutex.FreeAgain` and `RecMutex.BalancedIsFree`, which need the intended one.
- `ki_set_page_free` does not move `free_list`, so a freed page is never handed out again
  (`PgAlloc.Pages.Run`, `PgAlloc.FreedPageIsLost`).
- `mm_pgalloc` takes the page at address 0 for none, and then looks at no later area (`PgAlloc.Pages.PgAlloc`,
  `PgAlloc.ZeroPageBlocks`).
- `mm_merge_mapped_area` ignores the access of the second region (`Vmr.MergeKeepsRightsIff`, `Vmr.MergeLosesRights`).
- `mm_probe_and_lock_pages` rounds ptr down and the size up separately, so for a misaligned ptr it may stop
  before the end of the request (`Vmr.ProbeGrantsBytesIff`, `Vmr.MisalignedProbe`).
- It takes a size within a page of 2^64 for an empty one (`Vmr.CeilWraps`, `Vmr.HugeProbe`).

## Model

| member | source | states |
|---|---|---|
| Shape.HeightBound | include/pbos/kfxx/rbtree.hh:336-359 | for every red-black tree, 2 to the height is at most the square of the size plus one, so the height is at most 2 log2(size + 1) |
| Shape.BlackHeightBounds | kernel/kfxx/rbtree.cc:64-113 | 2 to the black height is at most size + 1, and the height at most twice the black height, one more for a red root |
| Shape.RedUncle | kernel/kfxx/rbtree.cc:73-79 | recolouring parent, uncle and grandparent moves the one possible red-red edge two levels up and keeps all black heights |
| Shape.BlackUncleRight | kernel/kfxx/rbtree.cc:80-88 | the right rotation with a black uncle leaves a red-black tree up to the colour of the root |
| Shape.BlackUncleLeft | kernel/kfxx/rbtree.cc:100-108 | the mirror image |
| Shape.RedSiblingRight | kernel/kfxx/rbtree.cc:176-181 | turning a red sibling keeps the shortage of one black node and all other heights |
| Shape.RedSiblingLeft | kernel/kfxx/rbtree.cc:207-212 | the mirror image |
| Shape.BlackNephews | kernel/kfxx/rbtree.cc:183-187 | painting a black sibling red moves the shortage one level up |
| Shape.RedFarNephewRight | kernel/kfxx/rbtree.cc:196-202 | the final rotation ends the shortage |
| Shape.RedFarNephewLeft | kernel/kfxx/rbtree.cc:227-232 | the mirror image |
| Shape.RedNearNephewRight | kernel/kfxx/rbtree.cc:189-195 | the inner rotation makes the far nephew red and keeps the shortage |
| Shape.RedNearNephewLeft | kernel/kfxx/rbtree.cc:220-226 | the mirror image |
| Shape.Shortage | kernel/kfxx/rbtree.cc:171-172 | taking out a black node with at most one child leaves a tree that is short of exactly one black node at that place |
| Shape.NoShortage | kernel/kfxx/rbtree.cc:171-172 | taking out a red node leaves a red-black tree |
| Shape.PostOrderOnce | include/pbos/kfxx/rbtree.hh:448-478 | a children-first listing has every node once |
| LinkedShape.LrotWhole | kernel/kfxx/rbtree.cc:23-42 | writing the six fields of a left rotation into the links of a tree gives the links of the rotated tree, node by node |
| LinkedShape.RrotWhole | kernel/kfxx/rbtree.cc:44-62 | the mirror image |
| LinkedShape.SpliceWhole | kernel/kfxx/rbtree.cc:158-169 | the writes that take out a node with at most one child give the links of the tree with the child in its place |
| LinkedShape.PromoteWhole | kernel/kfxx/rbtree.cc:132-157 | the writes that put the successor in the place of a node with two children give the links of that tree |
| LinkedShape.PromoteInOrder | kernel/kfxx/rbtree.cc:132-157 | promotion drops exactly the removed node from the in-order sequence |
| RBTreeModel.RBTree.Lrot | kernel/kfxx/rbtree.cc:23-42 | the exact fields that change, for a node with a right child |
| RBTreeModel.RBTree.Rrot | kernel/kfxx/rbtree.cc:44-62 | the exact fields that change, for a node with a left child |
| RBTreeModel.RBTree.RotateLeft | kernel/kfxx/rbtree.cc:23-42 | the linked tree becomes the rotated tree; the in-order sequence stays |
| RBTreeModel.RBTree.RotateRight | kernel/kfxx/rbtree.cc:44-62 | the linked tree becomes the rotated tree; the in-order sequence stays |
| RBTreeModel.RBTree.InsertStep | kernel/kfxx/rbtree.cc:67-110 | one turn of the loop keeps the invariant (all black heights right, at most one red-red edge, at the loop node), keeps the in-order sequence and moves up or ends |
| RBTreeModel.RBTree.InsertFixup | kernel/kfxx/rbtree.cc:64-113 | the loop ends; the tree is red-black with the same in-order sequence |
| RBTreeModel.RBTree.GetMinNode | kernel/kfxx/rbtree.cc:5-12 | the first node in order of a subtree, null for an empty one |
| RBTreeModel.RBTree.GetMaxNode | kernel/kfxx/rbtree.cc:14-21 | the last node in order of a subtree, null for an empty one |
| RBTreeModel.RBTree.GetSlot | include/pbos/kfxx/rbtree.hh:137-214 | refuses exactly the keys that are present; otherwise finds the one leaf where the key belongs in order |
| RBTreeModel.RBTree.Place | include/pbos/kfxx/rbtree.hh:217-269 | links the node at that leaf; the result is red-black and the in-order sequence has the node at that place |
| RBTreeModel.RBTree.InsertAt | include/pbos/kfxx/rbtree.hh:217-278 | as Place, with the cached minimum and maximum and the size right again |
| RBTreeModel.RBTree.Insert | include/pbos/kfxx/rbtree.hh:419-431 | keeps every invariant; succeeds exactly for a new key and then adds exactly that node in order; for a present key nothing at all changes |
| RBTreeModel.RBTree.RemoveStep | kernel/kfxx/rbtree.cc:172-235 | one turn of the removal loop keeps the invariant (one black node short at x) and the in-order sequence, and moves up, meets a red node or ends |
| RBTreeModel.RBTree.RemoveFixup | kernel/kfxx/rbtree.cc:171-238 | the loop ends; the tree is red-black with the same in-order sequence |
| RBTreeModel.RBTree.Bypass | kernel/kfxx/rbtree.cc:158-169 | takes out a node with at most one child |
| RBTreeModel.RBTree.Promote | kernel/kfxx/rbtree.cc:132-157 | puts the successor in the place of a node with two children, with the colours exchanged |
| RBTreeModel.RBTree.Detach | kernel/kfxx/rbtree.cc:115-241 | takes out exactly the given node, wherever it is; the rest is a linked red-black tree in the same order |
| RBTreeModel.RBTree.RemoveNode | include/pbos/kfxx/rbtree.hh:280-289 | as Detach, with the cached minimum and maximum and the size right again |
| RBTreeModel.RBTree.Remove | include/pbos/kfxx/rbtree.hh:438-443 | removes exactly the given node, keeps every invariant, clears the links of the node and leaves its key |
| RBTreeModel.RBTree.InsertThenRemove | include/pbos/kfxx/rbtree.hh:422-443 | removing the node just inserted gives back the contents in order |
| RBTreeModel.RBTree.HeightIsLogarithmic | include/pbos/kfxx/rbtree.hh:68-135 | a valid tree of n nodes is at most 2 log2(n + 1) high |
| RBTreeModel.RBTree.Find | include/pbos/kfxx/rbtree.hh:68-135 | returns the node with the key, null exactly when there is none |
| RBTreeModel.RBTree.FindMaxLteq | include/pbos/kfxx/rbtree.hh:292-360 | returns the node with the greatest key not above the query, null exactly when there is none |
| RBTreeModel.RBTree.GetNext | kernel/kfxx/rbtree.cc:243-258 | the next node in order, null after the last and at the given last node |
| RBTreeModel.RBTree.GetPrev | kernel/kfxx/rbtree.cc:260-275 | the node before in order, null before the first and at the given first node |
| RBTreeModel.RBTree.Walk | include/pbos/ki/mm/pgalloc.hh:62-63 | from the cached minimum, repeated get_next lists every node once, in ascending order |
| RBTreeModel.RBTree.ClearAll | include/pbos/kfxx/rbtree.hh:450-472 | hands every node to the deleter once, after both its subtrees, although the deleter destroys all fields of a node |
| RBTreeModel.RBTree.Clear | include/pbos/kfxx/rbtree.hh:448-478 | as ClearAll, leaving an empty valid tree |
| Kima.Pool.FirstMissing | kernel/mm/kima/malloc.cc:23-31 | finds the first page of a run without a descriptor, if there is one |
| Kima.Pool.ScanRun | kernel/mm/kima/malloc.cc:33-57 | finds the lowest aligned place from the start of the run that no live block overlaps, less than an alignment past the last that fits; if it finds none, no address up to there has room |
| Kima.JumpSkipsNothing | kernel/mm/kima/malloc.cc:42-54 | jumping to the end of an overlapping block passes no free place |
| Kima.JumpSkipsNoRoom | kernel/mm/kima/malloc.cc:38-54 | nor an address from which rounding up would find one |
| Kima.NearestDecides | kernel/mm/kima/malloc.cc:49-54 | when the block nearest to the last byte does not overlap, no block does |
| Kima.Pool.Search | kernel/mm/kima/malloc.cc:15-77 | the search over all page descriptors ends; the place it finds is on a run of described pages, and the lowest candidate if the block stays in the run; if it finds none, there is no room on any run |
| Kima.Pool.DescribeFresh | kernel/mm/kima/malloc.cc:88-103 | describes exactly the fresh pages, one reference each, or on exhaustion takes all of them back |
| Kima.Pool.Alloc | kernel/mm/kima/malloc.cc:7-114 | for every request, live blocks stay disjoint and the new one is aligned and free; on described pages it is at the lowest free aligned place of a run before which there is no room, and otherwise, only where there is no room at all, it is the fresh region; null only without a block descriptor, without a region or for want of page descriptors, and then nothing changes; the pool invariant (a page has a descriptor exactly while a live block touches it, counting the blocks that do) is kept if and only if the block stays in its run, and always if its size is a multiple of the alignment or more than a page; then the block is at the lowest candidate if there is one, and fresh pages are used exactly when there is none |
| Kima.Pool.Free | kernel/mm/kima/malloc.cc:325-345 | removes exactly the block, counts down exactly its pages and keeps the invariant |
| Kima.CountedUpAsDown | kernel/mm/kima/malloc.cc:333-335 | the pages that freeing counts down are those that allocation counted up |
| Kima.PlacedCounted | kernel/mm/kima/malloc.cc:60-69 | counting up the run of a placed block keeps every reference count equal to the number of live blocks on the page |
| Kima.FreshCounted | kernel/mm/kima/malloc.cc:96-103 | so does describing fresh pages |
| Kima.FreedCounted | kernel/mm/kima/malloc.cc:333-342 | and counting down the pages of a freed block |
| Kima.FreeUndoesPlacing | kernel/mm/kima/malloc.cc:333-342 | freeing gives back the page descriptors there were before the block was placed |
| Kima.FreeUndoesFresh | kernel/mm/kima/malloc.cc:333-342 | the same for a block on fresh pages |
| Kima.CandidateIff | kernel/mm/kima/malloc.cc:23-54 | the search considers exactly the usable places that do not straddle one page more than the size needs |
| Kima.FreshPagesIff | kernel/mm/kima/malloc.cc:79-86 | in a given pool, fresh pages are asked for if and only if every usable place straddles |
| Kima.FirstFitCompleteIff | kernel/mm/kima/malloc.cc:15-86 | for an alignment that divides the page size and the block size, first-fit finds a usable place whenever there is one, in every pool, if and only if the block is larger than a page or as large as its alignment |
| Kima.ReachMissed | kernel/mm/kima/malloc.cc:7-114 | for every other request, three allocations and a free reach a pool with one usable place |
| Kima.StraddlingPlaceIsMissed | kernel/mm/kima/malloc.cc:34-37 | there the request is refused for want of fresh pages |
| Kima.RoundingStaysIff | kernel/mm/kima/malloc.cc:36-40 | rounding up to the alignment after the limit test stays within the limit for every starting point if and only if the size is a multiple of the alignment |
| Kima.OfferedFits | kernel/mm/kima/malloc.cc:36-40 | in a sound pool a block that is a multiple of its alignment or more than a page stays in its run |
| Kima.SpilledMiscounts | kernel/mm/kima/malloc.cc:60-69 | a block that leaves its run leaves a page with a wrong count |
| Kima.StaysInRunIff | kernel/mm/kima/malloc.cc:34-40 | in every pool and whatever place is chosen, the block stays in its run if and only if its size is a multiple of the alignment or more than a page |
| Kima.ReachSpill | kernel/mm/kima/malloc.cc:7-71 | for every other request, two allocations put a block on a page without a descriptor |
| Slots.PageOfAddress | kernel/mm/kima/ublk.cc:23-23 | rounding the address of a slot down to the page size gives its pool page |
| Slots.AddressOrder | kernel/mm/kima/ublk.cc:45-45 | the order of slot addresses, by which the free tree is kept, is page first, then index |
| Slots.SlotPool.AllocSlot | kernel/mm/kima/ublk.cc:43-93 | takes the first free slot, or the first slot of a new page, or fails without change; every slot stays free or in use for exactly one address, and page headers count the used slots |
| Slots.SlotPool.FreeSlot | kernel/mm/kima/ublk.cc:22-41 | frees exactly the slot; the page is given back exactly when that was its last used slot; all its slots were in the free tree and leave it |
| Slots.FreeStep | kernel/mm/kima/vpgdesc.cc:13-31 | both outcomes keep the partition of slots and the header counts |
| PageTable.AddressRoundTrip | arch/x86_64/memconf.h:47-63 | an address is its prefix, its four indices and its offset put together |
| PageTable.IndexRoundTrip | arch/x86_64/memconf.h:47-62 | the indices and the offset of an address put together are those it was put together from |
| PageTable.PageDigits | arch/x86_64/memconf.h:47-50 | the four indices are the base-512 digits of the page number |
| PageTable.PutPageLookup | hal/x86_64/mm/vmmgr/vm.cc:375-377 | writing the entry of one page changes the answer for that page and no other |
| PageTable.HangLookup | hal/x86_64/mm/vmmgr/vm.cc:239-266 | a new table under an absent entry changes no answer |
| PageTable.HangReach | hal/x86_64/mm/vmmgr/vm.cc:239-266 | it can be reached at its one place; nothing else is reached differently |
| PageTable.AddressSpace.Child | hal/x86_64/mm/vmmgr/vm.cc:239-266 | an entry leads to its table afterwards; exactly when it did not before, the first frame of the supply is taken for a table and the entry grants writing, user access and execution and is cached; panics exactly for a missing table under the no-allocation flag, and fails exactly for a missing table without a frame |
| PageTable.AddressSpace.MapPages | hal/x86_64/mm/vmmgr/vm.cc:350-383 | the pages of one table that belong to the range are mapped as asked |
| PageTable.AddressSpace.MapTable | hal/x86_64/mm/vmmgr/vm.cc:268-385 | so are the pages below one middle table |
| PageTable.AddressSpace.Mmap | hal/x86_64/mm/vmmgr/vm.cc:198-391 | on success every page of the range is mapped as asked, every other page as before, the frames mapped before are released unless the flags say not to, and with the no-remap flag there were none; the rights that the upper entries leave on every way stay as they were; the tables added are the frames taken, none under the no-allocation flag; it fails only where a table is missing (for a page of the range or for the root entry of its end) and none may or can be taken, or where a page is mapped and may not be remapped, and then leaves pages outside the range as before; a range that ends at 2^64, and only such a range, reports success and maps nothing |
| PageTable.AddressSpace.GetMap | hal/x86_64/mm/vmmgr/vm.cc:878-976 | the walk answers with the entry of the page in the flat map: null exactly for a page that is not mapped and for one mapped to frame 0, which only the access bits tell apart |
| PageTable.GuardIff | hal/x86_64/mm/vmmgr/vm.cc:272-275 | the guards of the inner loops, which compare the address put together from prefix and indices with the end address, compare the page number with the end of the range |
| PageTable.ServedReports | hal/x86_64/mm/vmmgr/vm.cc:198-391 | after a successful mapping with the mapped bit, the lookup of the k-th page answers with the physical address plus k pages, or with null for every page where that address is null, and with the asked access bits |
| PageTable.ServedEntry | hal/x86_64/mm/vmmgr/vm.cc:226-228 | the entry of every page of the range has the write, user, cache and execute bits asked for; its frame goes on by one a page from the physical address, and is 0 for every page where that is null |
| PageTable.ServedRights | hal/x86_64/mm/vmmgr/vm.cc:239-248 | the rights of a mapped page over all four entries of its walk are those asked for as far as the upper entries from before let them through; they are exactly those asked for if and only if these let all of them through |
| PageTable.HangUpper | hal/x86_64/mm/vmmgr/vm.cc:239-248 | a new table under an entry that grants everything leaves the rights on every way as they were |
| PageTable.FirstMapping | hal/x86_64/mm/vmmgr/vm.cc:198-391 | in a new address space a mapping never panics, fails only for want of frames, and otherwise the page has exactly the rights asked for over its whole walk |
| PageTable.TopPageIsMissed | hal/x86_64/mm/vmmgr/vm.cc:213-235 | mapping the last page of the address space reports success and the page is not found |
| ListModel.List.Prepend | include/pbos/kfxx/list.hh:55-72 | puts the node before the given one; the list is sound afterwards if and only if the back link of the node, which is not written, already held the right value |
| ListModel.List.PushFront | include/pbos/kfxx/list.hh:151-153 | a node becomes the first; the list is sound if and only if the back link of the node was null |
| ListModel.PrependBreaks | include/pbos/kfxx/list.hh:55-72 | a fresh node put before the second of two leaves a list that is not sound |
| ListModel.List.Detach | include/pbos/kfxx/list.hh:93-109 | takes out exactly the node and keeps the list sound; the links of the node stay |
| ListModel.MoveFirst | include/pbos/kfxx/hashset.hh:106-112 | moving the first node of one list to the front of another keeps both sound |
| BucketLists.MoveTo | include/pbos/kfxx/hashset.hh:106-112 | among many lists without common nodes, the move changes two of them as asked and keeps all sound and apart |
| BucketLists.Relink | include/pbos/kfxx/hashset.hh:103-114 | relinking in place leaves the old buckets empty and the new ones with the same elements, each in bucket hash mod n, all lists sound and made of the same nodes |
| BucketLists.SlotIn | include/pbos/kfxx/hashset.hh:121-137 | the first node of a list with the key, null exactly when there is none |
| BucketLists.Overwrite | include/pbos/kfxx/hashset.hh:197-202 | assigning the data of one node changes that element of that list; all lists stay sound and apart |
| BucketLists.PushNew | include/pbos/kfxx/hashset.hh:203-204 | a new node becomes the first of one list; all lists stay sound and apart, the others as they were |
| BucketLists.DetachAt | include/pbos/kfxx/hashset.hh:253-257 | one node leaves one list; all lists stay sound and apart, the others as they were |
| BucketLists.Resize | include/pbos/kfxx/hashset.hh:78-119 | new buckets, for any number of them, with the same elements, each in bucket hash mod n, on sound lists made of the same nodes |
| HashSetModel.HashSet.CheckAndResize | include/pbos/kfxx/hashset.hh:139-164 | keeps the elements; doubles the buckets when there are more than two elements a bucket, halves them when there are more buckets than elements and more than one, and otherwise leaves them; fails exactly when a resize is due and cannot be done, without change |
| HashSetModel.HashSet.Get | include/pbos/kfxx/hashset.hh:267-285 | the element with the key, none exactly when no element has it |
| HashSetModel.HashSet.Insert | include/pbos/kfxx/hashset.hh:174-216 | success stores the element in place of one with the same key, bumps the size and leaves the number of buckets that the load asks for; a failed insertion leaves the elements as they were if and only if the key was absent, and otherwise loses one; a size of at most 2n + 1 is kept if and only if the resize that was due could be done |
| HashSetModel.LostElement | include/pbos/kfxx/hashset.hh:207-212 | three elements, and a failed insertion that leaves two of them |
| HashSetModel.LostLoad | include/pbos/kfxx/hashset.hh:207-215 | three insertions, and a successful one whose resize fails: the load bound held and is lost |
| HashSetModel.HashSet.Remove | include/pbos/kfxx/hashset.hh:218-265 | removes exactly the element with the key, and counts down exactly when there was one |
| Buckets.PutHashed | include/pbos/kfxx/hashset.hh:197-204 | storing keeps keys distinct and hash codes right; the number of elements grows exactly for a new key |
| Buckets.Popped | include/pbos/kfxx/hashset.hh:207-212 | dropping the front element gives the old elements back exactly when nothing was overwritten |
| PgAlloc.Area.AddFree | hal/x86_64/mm/init.cc:243-258 | appends a free page to the list |
| PgAlloc.Area.AddReserved | hal/x86_64/mm/init.cc:137-144 | describes a page without a reference that is on no list |
| PgAlloc.Area.SetUsed | kernel/mm/pgalloc.cc:53-72 | one more reference; a page that was free leaves the list, from its head, from its middle or from off the list, and the list stays sound |
| PgAlloc.Area.SetFree | kernel/mm/pgalloc.cc:74-92 | one reference fewer if there is any; the asserted null predecessor holds; the list is as before |
| PgAlloc.Area.Used | kernel/mm/pgalloc.cc:84-89 | a page in use is on no list and has no links |
| PgAlloc.Area.Reached | kernel/mm/pgalloc.cc:111-120 | everything reached from free_list by next_free is the list, and every page of it has no references |
| PgAlloc.Pages.GetPmad | kernel/mm/pgalloc.cc:100-109 | the area that holds the address, null exactly when none does |
| PgAlloc.Pages.AllocFreePage | kernel/mm/pgalloc.cc:111-120 | the address of the page at the head of the list of the lowest area of the kind that has one; 0 exactly when all those lists are empty or the page at address 0 heads the list of the area at address 0 and that area is of the kind |
| PgAlloc.Pages.PgAlloc | kernel/mm/pgalloc.cc:16-24 | that page goes from no references to one, no other count changes, and it leaves the free lists; null, without any change, in exactly the two cases of AllocFreePage |
| PgAlloc.Pages.RefPg | kernel/mm/pgalloc.cc:30-32 | one more reference on the page and no other count changed |
| PgAlloc.Pages.PgFree | kernel/mm/pgalloc.cc:26-28 | one reference fewer on the page if it has any and no other count changed; the free lists stay |
| PgAlloc.Pages.constructor | kernel/mm/pgalloc.cc:6-9 | no area is a valid start |
| PgAlloc.Pages.AddArea | hal/x86_64/mm/init.cc:650-659 | an area apart from the others, with its free pages, keeps the whole valid |
| PgAlloc.Pages.Run | kernel/mm/pgalloc.cc:16-32 | over any sequence of operations the invariant holds, the pages handed out are distinct and none was in use; freed pages never come back |
| PgAlloc.FreedPageIsLost | kernel/mm/pgalloc.cc:85-90 | the only page of an area, at 4096, is handed out and freed, and then no page is left to hand out |
| PgAlloc.ZeroPageBlocks | kernel/mm/pgalloc.cc:16-24 | with the page at address 0 in an area of its own and a free page in a later area of the same kind, no page is handed out |
| RecMutex.StepKeeps | kernel/ps/mutex.cc:42-56 | every atomic step of every thread keeps the invariant |
| RecMutex.RunKeeps | kernel/ps/mutex.cc:42-76 | so does every interleaving of any number of threads |
| RecMutex.MutualExclusion | kernel/ps/mutex.cc:42-76 | at every moment at most one thread has locks outstanding; lock_thread names it, lock_times is their number, the spinlock is locked |
| RecMutex.LockCounts | kernel/ps/mutex.cc:45-53 | every completed lock, first or re-entrant, leaves one more on lock_times and the mutex with the caller |
| RecMutex.UnlockCounts | kernel/ps/mutex.cc:72-75 | the decrement of an unlock takes one off, and the call goes on to give the mutex back exactly when nothing is left |
| RecMutex.UnlockCompletes | kernel/ps/mutex.cc:69-76 | an unlock ends with one fewer and the caller still holding the mutex, or at zero with the mutex given back |
| RecMutex.CallsCount | kernel/ps/mutex.cc:42-76 | after any run, a thread between calls is the owner if and only if it has completed more locks than unlocks, and lock_times is then the difference; completed calls are counted from where the threads are |
| RecMutex.BalancedIsFree | kernel/ps/mutex.cc:42-76 | when every thread is between calls with as many unlocks as locks, the mutex is as it was initialized |
| RecMutex.CallReturns | kernel/ps/mutex.cc:42-76 | a call of the holder returns after five steps of its own, or seven for the last unlock, with one lock more or fewer, whatever the other threads do meanwhile |
| RecMutex.StaleReadNeverAdmits | kernel/ps/mutex.cc:49-54 | a thread that compares lock_thread with itself is let in exactly when it holds the mutex, however late the comparison |
| RecMutex.OnlyHoldersUnlock | kernel/ps/mutex.cc:69-71 | the checks of unlock pass exactly for the holder and never stop it |
| RecMutex.FreeAgain | kernel/ps/mutex.cc:72-75 | when no thread is inside, the mutex is as it was initialized |
| RecMutex.NeverAgain | hal/x86_64/kf/spinlock.cc:17-19 | with an unlock that only assigns its parameter, after the first full release no thread ever gets the mutex again |
| RecMutex.ReachesRelease | kernel/ps/mutex.cc:42-76 | one lock and one unlock bring any thread to that release |
| Paths.FNode.Unref | kernel/fs/file.cc:440-443 | the node is destroyed with its last reference |
| Paths.FNodePtr.constructor | include/pbos/kfxx/rcobj.hh:154-158 | one reference for a non-null node |
| Paths.FNodePtr.Assign | include/pbos/kfxx/rcobj.hh:172-183 | one reference moves from the old node to the new one, if any; assigning the node already held keeps the count, and destroys the node if that was its only reference |
| Paths.FNodePtr.Reset | include/pbos/kfxx/rcobj.hh:146-150 | gives one reference back, the node going with its last |
| Paths.ChildOf | kernel/fs/file.cc:333-355 | the node linked under the name, else the one the file system finds, with one more reference; otherwise not found for no directory, unsupported for a node that is none, the error of the file system for an unknown name, with no count changed |
| Paths.Resolve | kernel/fs/file.cc:357-402 | equals looking up the names between slashes one after the other, from the root for a leading slash and from the current directory otherwise, with the error of the first lookup that fails; exactly one more reference on the node found, no other count changed on success or failure, and no node is destroyed |
| Paths.ResolvesAlong | kernel/fs/file.cc:357-402 | without a lookup function: the end of the trail of nodes that the names lead through; where the trail ends early, the error tells whether the node there is no directory or has no such name |
| Paths.ResolvesNowhere | kernel/fs/file.cc:357-402 | a relative path from no directory is not found; the empty path is no error and no node |
| Paths.TwoNames | kernel/fs/file.cc:339-342 | a name in the root directory, linked or found, gives its node, and a name in that directory the node there |
| Paths.NamesPiece | kernel/fs/file.cc:369-384 | a piece without slashes is one name, or none when it is empty |
| Paths.NamesSplit | kernel/fs/file.cc:364-384 | a slash separates: the names of both sides, in order |
| Paths.ResolveInTwo | kernel/fs/file.cc:364-398 | resolving a longer path is resolving its beginning and then the rest from there |
| Paths.ExtraSlashes | kernel/fs/file.cc:369-372 | repeated and trailing slashes mean nothing |
| Vmr.SplitDisjoint | kernel/mm/misc.cc:211-252 | splitting keeps the regions disjoint |
| Vmr.SplitRights | kernel/mm/misc.cc:211-252 | and the rights of every address |
| Vmr.SplitAligned | kernel/mm/misc.cc:211-252 | and their alignment exactly when the split point is aligned |
| Vmr.MergeDisjoint | kernel/mm/misc.cc:171-209 | merging keeps the regions disjoint |
| Vmr.MergeRights | kernel/mm/misc.cc:171-209 | and the covered addresses; the addresses of the second region get the rights of the first |
| Vmr.MergeKeepsRightsIff | kernel/mm/misc.cc:202-206 | merging keeps the rights of every address if and only if both regions have the same |
| Vmr.MergeLosesRights | kernel/mm/misc.cc:202-206 | merging a readable page with a writable one takes the right to write away |
| Vmr.MergeUndoesSplit | kernel/mm/misc.cc:171-252 | merging the halves gives back the regions |
| Vmr.Context.Split | kernel/mm/misc.cc:211-252 | each error exactly in its case and without change; otherwise the split regions, aligned exactly when the split point is |
| Vmr.Context.Merge | kernel/mm/misc.cc:171-209 | succeeds exactly for two neighbours and keeps alignment; otherwise nothing changes |
| Vmr.Context.SplitThenMerge | kernel/mm/misc.cc:171-252 | the two operations in a row change nothing |
| Vmr.PassedIsGranted | kernel/mm/misc.cc:424-449 | when the tests of the walk pass, every page up to the limit is covered by a region that grants the access |
| Vmr.GrantedPasses | kernel/mm/misc.cc:424-449 | and the other way round |
| Vmr.Context.LockWalk | kernel/mm/misc.cc:424-449 | passes exactly when all regions grant, join and reach the limit, and has then locked exactly the regions of the walk |
| Vmr.Context.Probe | kernel/mm/misc.cc:361-454 | over page-aligned regions, for a size whose round-up does not wrap, it succeeds if and only if PGFLOOR(ptr) + PGCEIL(size) is not beyond user space and every page from PGFLOOR(ptr) up to there is covered by a region that grants the access; the arguments are invalid exactly when the sum is beyond, or no region begins at or before ptr; success has locked exactly the regions with an address there; if every byte of the request is granted it succeeds, and under TailInside the other way round |
| Vmr.FindLimit | kernel/mm/misc.cc:364-375 | the checks on 64-bit words refuse exactly the requests whose pages go beyond user space; the limit is the last address of those pages, or the one before ptr where the round-up is 0 |
| Vmr.TailInsideIff | kernel/mm/misc.cc:364-370 | the last byte of the request is not after the limit if and only if the offset of ptr in its page plus the size is at most the size rounded up |
| Vmr.ProbeGrantsBytesIff | kernel/mm/misc.cc:361-454 | a successful probe means that every byte of the request is granted, for all aligned regions, if and only if that holds |
| Vmr.MisalignedProbe | kernel/mm/misc.cc:364-370 | a page asked for from its middle is let through by one readable page |
| Vmr.CeilWraps | arch/x86_64/memconf.h:32-32 | the round-up to pages is 0 for exactly the empty request and sizes within a page of 2^64 |
| Vmr.HugeProbe | kernel/mm/misc.cc:364-370 | for every such size, two readable pages let the probe through although not every byte is granted |
| Vmr.Context.Unlock | kernel/mm/misc.cc:456-518 | succeeds exactly when the range is inside user space and the regions join and reach its limit, and releases those regions; the arguments are invalid exactly when the range is beyond user space or no region begins at or before ptr |
| Vmr.Context.ProbeThenUnlock | kernel/mm/misc.cc:361-518 | unlocking what was probed releases exactly what probing locked |
| Pids.ProcSet.Create | kernel/ps/proc.cc:78-115 | gives the smallest identifier not in use; fails exactly when all below the maximum are in use, without change; every identifier below ki_min_free_pid stays in use and ki_cur_max_pid the largest in use |
| Pids.ProcSet.Destroy | kernel/ps/proc.cc:46-65 | takes exactly the identifier out of use and keeps both bounds right |
| Pids.ProcSet.Recycle | kernel/ps/proc.cc:46-115 | a destroyed identifier below all free ones is given out next |
| Pids.MaxAfterRemove | kernel/ps/proc.cc:57-63 | the floor of the old maximum is the new maximum |
| Sched.NextIsSuccessor | kernel/ps/sched/simploop.c:26-47 | the next thread is the cyclic successor in the order of process and thread identifiers |
| Sched.ThreadsDistinct | kernel/ps/sched.cc:25-39 | no thread occurs twice in that order |
| Sched.Cpu.Tick | hal/x86_64/ps/sched.cc:85-95 | a tick goes one place on; the current process is the parent of the current thread, the only thread marked as scheduled |
| Sched.Cpu.Round | hal/x86_64/ps/sched.cc:85-95 | as many ticks as threads, from any thread, give every thread exactly one and come back to the first |
| I64Div.Mul | lib/freestdc/src/common/i64div.c:3-11 | the product modulo 2^64 |
| I64Div.Div | lib/freestdc/src/common/i64div.c:13-21 | the quotient for a positive divisor, all ones for zero |
| I64Div.Mod | lib/freestdc/src/common/i64div.c:23-25 | the remainder for a positive divisor, the dividend for zero |
| I64Div.DividingStep | lib/freestdc/src/common/i64div.c:15-19 | a round of the division sets a bit that was clear, shifts and subtracts without overflow, and keeps quotient times divisor plus rest |

## Left out

- kima_realloc and kima_realloc_in_place, the linked lists of KIMA pool pages and the page counter.
- kh_unmmap, kh_vmalloc, the early and temporary mappings, and the rollback after a failed kh_mmap: the model of a failed mapping keeps the pages mapped so far. On a failed table allocation the source also clears the address field of the absent entry, which no lookup reads.
- The region bookkeeping inside mm_mmap and mm_unmmap, the kernel-space branches of the probe and of unlocking, and the unlock loop of a failed probe.
- Reuse of freed physical pages, which the source does not do.
- The reader-writer mutex and the recursive try_lock.
- Fallible and two-way comparators of the tree and the hash set, iterator classes, list append, growth of dynamic arrays.
- ELF loading, initcar, ACPI, APIC, IRQ, VGA, logging, boot code, context switching, and all of hal/i386.
- Kima.Pool.Alloc: addresses are unbounded, so a region at the very top of the address space is not covered; the alignment divides the page size; PBOS_ISOVERLAPPED is not defined in the repository and is taken as the intersection of half-open ranges.
- HashSetModel.HashSet.Insert: releasing the memory of nodes and of old bucket arrays is not modelled.
- RecMutex.MutualExclusion: lock_times does not wrap; waiting and fairness are not modelled.
- Vmr.Context.Probe: user space only; locking a region's mutex is counted, waiting for it is not modelled; nothing is said about which locks a failed probe holds.
- Paths.Resolve: the tree of nodes does not change during a resolution, and every node is referenced from outside it; the root directory exists.
- Sched.Cpu.Round: the set of processes is fixed and every process has a thread.
- PgAlloc.Pages.Run: the per-page spinlock is not modelled.
