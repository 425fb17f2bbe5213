# Alliance OS kernel structures, modelled and proved in Dafny

Alliance OS is a microkernel (the Cache Kernel) with a support library. This project models the
data structures of both that are hardest to get right, in the imperative form of the C code, and
proves what they are for. `dafny verify dfyconfig.toml` checks all of it.

| files | what they model |
|---|---|
| `Machine`, `DList` | 32-bit numbers and the error codes; doubly linked lists threaded through memory |
| `FreeBlocks`, `Alignment`, `SizeLists`, `Requests`, `Headers`, `FreeList`, `Arena` | the free-list allocator: the list as a value, the mask arithmetic, the eight size lists, what a request does to the list, the bytes of an entry's fields, the descriptor with its operations, whole runs |
| `DepGraph`, `ObjectModel`, `ObjectManager` | the sorted array of object dependencies, the cached objects as a value with their cascades and runs, the load and unload calls |
| `TimeOrder`, `PriorityHeap`, `Scheduling` | circular time and heap order, the heaps of events with back-pointers, the thread states and the choice of the next thread |
| `Profiler` | the call-graph table: chains in one array of arcs, refining a counting map |
| `GdbPacket`, `StringMatch`, `IoRegions`, `NumberFormat` | the debugger's packets, `strstr` by jumps, the I/O regions, number formatting and reading |

## How memory is modelled

A pointer is an address and NIL is address 0. A field of a C structure that is reached through
pointers is one map from addresses to values: `next[entry]` is `entry->next`. A header or region
whose memory was returned is absent from the maps `objects` or `table`, so naming it afterwards
would be an access to a missing key, and the proofs show that there is none. Fixed arrays (the size
list heads, the dependency array, the heaps, both profiler tables, the digit buffer) are arrays.
Events and heaps of the scheduler are objects. Each class has a predicate that holds between calls
(`Valid`, with parts such as `Threaded` or `Sound` where a step works on less), which every method
keeps; ghost fields (`blocks`, `classes`, `peers`, `members`, `keys`, `chains`, `owned`) give the
abstract value. 32-bit arithmetic is written out wherever the result can wrap.

Calls of the Cache Kernel are atomic: mutexes and interrupt locks are not modelled. A nested loop of
the source appears as a method for its inner part and one for its outer part; a block that several
C functions repeat word for word (filling in a header, unlinking it, leaving a heap) is one method.
What comes from outside is a parameter: the address that CKmemAlloc returns, the reading of the
hardware clock, the value that the unused root slot of an empty heap happens to hold. The `ghost w`
of the heap methods is the beginning of the half circle in which all times are assumed to lie when
heap order is claimed; nothing else depends on it.

## Where the code does less than one would expect

* AdjustSize wraps to 0 for requests above 2^32 - 4 (development/KL/Alloc/FreelistAlloc.c:95). The
  plain allocation stays sound even then. The aligned one, which takes 0 bytes out of an entry at
  its lowest permitted place, leaves the descriptor sound exactly if that place is the beginning or
  the end of the entry (`MemAllocAlign`, `NothingKeeps`); inside the entry the two parts touch, and
  a place behind it enlarges the entry over its neighbour (`NothingGrows`).
* CKaddObjectDep looks at the edge before the first one (development/CK/graph.c:96); index 0 is
  modelled as the start of a run, as CKremoveObjectDep has it. Nothing checks that the array has
  room: the load methods require room for the two edges that an object can need.
* CKunCacheObject ignores the error of a nested unload and loops for ever on a locked dependant
  (development/CK/objmgmt.c:730-734): with a locked object below, a dependant is left after any
  number of rounds (`LockedRoundsGoOn`, `UncacheRounds`, with a state where it happens in
  `LockedHappens`). `UncacheObject` is for objects below which nothing is locked, or which are
  locked themselves; for these it ends. `UnloadObject`, which stops at the error, has no such
  condition, and `UnloadExact` says exactly when it succeeds.
* The address space of a kernel object registers no dependency, so it can be unloaded under a live
  kernel. That leaves the kernel with the name of an unloaded address space exactly if its address
  space is the object unloaded, or depends on it, and the kernel is not itself unloaded
  (`KernelAddrSpaceDangles`, with a state in `KernelCanDangle`).
* CKremoveEvent only sifts down: after a removal from the middle the heap is in order exactly if the
  last event is not earlier than the parent of the hole (`RemoveEvent`, `BlockThread`).
  `MiddleRemovalLosesOrder` gives a heap where it is not. CKsiftup does not look at the capacity:
  no more threads are cached than a heap has slots (`Enrol`).
* CKflushPrevTask reads the root of the timesharing heap without asking whether there is one
  (development/CK/sched.c:128); `stale` stands for whatever is there.
* A quantum that lies 2^31 or more below the time left is taken for one that is too long, which only
  a negative one can be; nothing refuses negative quanta. The period is as it should be exactly if
  the quantum is not such a one (`Schedule`, `Preempted`, with an instance in `NegativeQuantumCut`).
* `_mcount` lets the end of the text through its bounds test, which has no bucket
  (development/CK/monitor/profiler.c:318, `EndOfTextHasNoBucket`);
  `Mcount` is for all other addresses. CKprofilerStartup does not clear the buckets; the constructor
  does.
* A raw fragment with a run of 7 equal characters (modulo 98) is coded with a "#", which ends the
  packet for the receiver; hexadecimal ones never are. A run of 8 is coded with a "$". A star in a
  raw fragment may be read as the mark of a run (`StarMayHarm`).
* CKIOfindGap adds base and limit in 32 bits. `FindGap` says what it answers for every range,
  `AnswerIsRight` exactly when that is the right answer, and `AnswerIsWrong` gives a range that is
  let in although it covers a region. `AllocIoRegion` keeps the regions in order exactly unless it
  lets in a range that wraps.
* KLintToAscii pads with blanks that KLasciiToInt does not skip (`ReadsBack`).

## Model

| member | source | states |
|---|---|---|
| Arena.RunsConserve | development/KL/Alloc/FreelistAlloc.c:131-405 | in every state that any run of allocations of any size, aligned allocations of up to 2^32 - 4 bytes, frees and donations can reach, the free list is coalesced, live blocks are disjoint from each other and from free memory, and free and live bytes together are exactly the bytes donated |
| Arena.FieldsOutsideLive | development/include/klibs.h:170-177 | in every such state none of the six fields of a free entry, 4 bytes each from its offset on, shares a byte with a block in use |
| Arena.StepConserves | development/KL/Alloc/FreelistAlloc.c:131-405 | every single call keeps that |
| Arena.AllocThenFree | development/KL/Alloc/FreelistAlloc.c:131-405 | freeing what was just allocated, with the same size, restores the free list block by block |
| Arena.Serve | development/KL/Alloc/FreelistAlloc.c:131-405 | the calls of the descriptor are steps of those runs: each call on a sound descriptor, for any request of the run, is one step |
| FreeBlocks.Canonical | development/KL/Alloc/FreelistAlloc.c:379-404 | a coalesced list is determined by the set of its free bytes |
| FreeBlocks.TotalFits | development/include/klibs.h:182 | the sum of the blocks of a coalesced list is below 2^32, so the counter FreeMemory never wraps |
| FreeBlocks.AdjustedCovers | development/KL/Alloc/FreelistAlloc.c:95 | up to 2^32 - 4 a rounded request is a multiple of 4 and at least the request: a header for a request below one, otherwise at most 3 bytes more; above 2^32 - 4 it is 0 |
| FreeBlocks.SizeClassMonotone | development/KL/Alloc/FreelistAlloc.c:29-60 | a larger size is never filed in a lower size list, so a search upwards from the list of the request misses no entry that is large enough |
| FreeBlocks.SizeClassLimits | development/KL/Alloc/FreelistAlloc.c:29-60 | the limits between the eight size lists are 2^7, 2^9, 2^11, 2^13, 2^15, 2^17 and 2^19 |
| FreeBlocks.CutBytes | development/KL/Alloc/FreelistAlloc.c:170-184 | taking [p, p+n) out of a block removes exactly those bytes from free memory |
| FreeBlocks.CutCoalesced | development/KL/Alloc/FreelistAlloc.c:170-184 | if the remainders are empty or hold a header, the list stays sorted, coalesced and of blocks no smaller than a header |
| FreeBlocks.CutTotal | development/KL/Alloc/FreelistAlloc.c:164-183 | the free memory drops by exactly n |
| FreeBlocks.ReleaseBytes | development/KL/Alloc/FreelistAlloc.c:360-405 | a release adds exactly its bytes to free memory |
| FreeBlocks.ReleaseCoalesced | development/KL/Alloc/FreelistAlloc.c:379-404 | joining on both sides leaves no two blocks touching |
| FreeBlocks.ReleaseTotal | development/KL/Alloc/FreelistAlloc.c:367 | the free memory grows by exactly n |
| FreeBlocks.ReleaseUndoesCut | development/KL/Alloc/FreelistAlloc.c:360-405 | releasing what was cut out gives back the same list |
| FreeBlocks.NoFreeByteReleasable | development/KL/Alloc/FreelistAlloc.c:360-405 | a range may be released exactly if none of its bytes is free |
| Alignment.AlignUp32Value | development/KL/Alloc/FreelistAlloc.c:213-231 | the mask arithmetic on 32 bits is rounding up to the boundary, wrapping to 0 only at the very end of memory |
| Alignment.UpLeast | development/KL/Alloc/FreelistAlloc.c:213-231 | rounding up gives the least multiple of the boundary that is not below the address |
| Alignment.PlaceLeast | development/KL/Alloc/FreelistAlloc.c:227-239 | the place chosen is permitted (aligned, and at the entry or a whole header behind it) and is the lowest permitted one |
| Alignment.AlignedOffset | development/KL/Alloc/FreelistAlloc.c:227-232 | the 32-bit difference from the entry is the true distance |
| Headers.FieldsApart | development/include/klibs.h:170-177 | each of the six fields of an entry lies inside the entry, and no other entry has a byte of it |
| Headers.FitsMeans | development/KL/Alloc/FreelistAlloc.c:150-169 | an entry passes the test of the search exactly if cutting the request off its front leaves nothing, or room for all six fields |
| Headers.PlaceMeans | development/KL/Alloc/FreelistAlloc.c:227-239 | the place chosen is the least aligned address in or behind an entry that is the entry itself or leaves room for all six fields before it |
| Headers.AlignedResultMeans | development/KL/Alloc/FreelistAlloc.c:223-283 | the result of an aligned request in these terms: the lowest place of an entry in the lowest size list that has one, with the fewest bytes behind it; NIL means that at no lowest place the block can be cut off |
| SizeLists.Unfile | development/KL/Alloc/FreelistAlloc.c:62-70 | unlinking an entry from its size list leaves the eight lists linked and partitioning the other entries |
| SizeLists.File | development/KL/Alloc/FreelistAlloc.c:72-79 | a new entry goes to the head of the list of its size, and the eight lists stay linked |
| SizeLists.Resize | development/KL/Alloc/FreelistAlloc.c:256 | an entry that is in no size list may change its size without disturbing one |
| FreeList.OrderWithout | development/KL/Alloc/FreelistAlloc.c:81-85 | unlinking an entry keeps the address list linked both ways and in order |
| FreeList.OrderInsert | development/KL/Alloc/FreelistAlloc.c:87-93 | so does linking one between its neighbours |
| FreeList.BestOfClass | development/KL/Alloc/FreelistAlloc.c:146-169 | the best entry of the first size list that has one is a best fit among all entries of all lists |
| FreeList.NoneOfClass | development/KL/Alloc/FreelistAlloc.c:146-169 | a size list without a candidate holds no entry that could serve the request |
| FreeList.PlaceOfClass | development/KL/Alloc/FreelistAlloc.c:223-265 | the same for aligned requests: the entry chosen admits the block at its lowest permitted place |
| FreeList.NoPlaceInClass | development/KL/Alloc/FreelistAlloc.c:223-265 | a size list without a candidate admits no permitted placement |
| FreeList.JoinIsRelease | development/KL/Alloc/FreelistAlloc.c:379-404 | joining on the left and then on the right is the release of the range |
| FreeList.FitAligned | development/KL/Alloc/FreelistAlloc.c:227-239 | the 32-bit computation of the aligned place inside an entry and of the bytes behind it is right for every entry, including one at the end of memory |
| FreeList.Descriptor.constructor | development/CK/memory.c:181-187 | an empty descriptor is sound |
| FreeList.Descriptor.SizeRemove | development/KL/Alloc/FreelistAlloc.c:62-70 | keeps the size lists and takes exactly the entry out |
| FreeList.Descriptor.SizeInsert | development/KL/Alloc/FreelistAlloc.c:72-79 | keeps the size lists and files the entry under its size |
| FreeList.Descriptor.Remove | development/KL/Alloc/FreelistAlloc.c:81-85 | takes exactly one entry out of both structures |
| FreeList.Descriptor.InsertEntry | development/KL/Alloc/FreelistAlloc.c:87-93 | puts one entry into both structures, between its neighbours |
| FreeList.Descriptor.SearchClass | development/KL/Alloc/FreelistAlloc.c:147-169 | finds the best entry of one size list, the first one for a perfect match and otherwise the last of that size |
| FreeList.Descriptor.Search | development/KL/Alloc/FreelistAlloc.c:146-186 | finds a best fit among all entries: an exact one if there is one, else one with the smallest remainder that holds a header; NIL only if no entry at all qualifies |
| FreeList.Descriptor.MemAlloc | development/KL/Alloc/FreelistAlloc.c:131-206 | keeps the descriptor sound (sorted, disjoint, coalesced address list; size lists filing the same entries; all links; FreeMemory), with room for the six fields in every entry; the block is the front of a smallest entry that can be cut so, the first of its size list for a perfect match and otherwise the last of that size; NIL means that none can be cut |
| FreeList.Descriptor.SearchClassAligned | development/KL/Alloc/FreelistAlloc.c:224-265 | finds the aligned placement with the smallest remainder in one size list, the first one if nothing remains and otherwise the last |
| FreeList.Descriptor.SearchAligned | development/KL/Alloc/FreelistAlloc.c:223-283 | finds an entry that admits the aligned block, in the lowest list that has one; NIL only if none admits it |
| FreeList.Descriptor.MemAllocAlign | development/KL/Alloc/FreelistAlloc.c:208-298 | for every request both lists stay linked and file the same entries. Unless the size was rounded to 0 the descriptor stays sound, and the block is aligned, wholly inside one entry, at its lowest permitted place, with both remainders empty or at least a header; NIL means that no entry admits one. If the size was rounded to 0 the descriptor is sound afterwards exactly if the lowest permitted place in the entry chosen is its beginning or its end |
| Requests.AdmitsMeans | development/KL/Alloc/FreelistAlloc.c:227-265 | the test on the bytes behind the place is the condition that the request fits there with nothing or a header behind it |
| Requests.OutcomeOf | development/KL/Alloc/FreelistAlloc.c:250-281 | what is stored for the entry chosen is the result that the call promises, for a block and for nothing |
| Requests.NothingKeeps | development/KL/Alloc/FreelistAlloc.c:250-281 | taking 0 bytes leaves the list as it was exactly if the place is the beginning or the end of the entry; otherwise two entries touch, or there is more memory than before |
| Requests.NothingBytes | development/KL/Alloc/FreelistAlloc.c:250-281 | it leaves the free bytes as they were exactly if the place is not behind the entry |
| Requests.NothingGrows | development/KL/Alloc/FreelistAlloc.c:250-281 | it happens: for an entry of 24 bytes at 8 and the boundary 4096 the entry grows to 4088 bytes, over its neighbour |
| FreeList.Descriptor.Take | development/KL/Alloc/FreelistAlloc.c:250-281 | takes the block out of the chosen entry, leaving a head and a tail entry where there are bytes left, and stores the 32-bit size of the head |
| FreeList.Descriptor.Neighbours | development/KL/Alloc/FreelistAlloc.c:366-378 | the walk ends between the entry before the freed address and the one after it |
| FreeList.Descriptor.MergePrev | development/KL/Alloc/FreelistAlloc.c:379-387 | joins the freed range with the entry before it exactly if they touch |
| FreeList.Descriptor.MergeNext | development/KL/Alloc/FreelistAlloc.c:389-404 | joins it with the entry after it exactly if they touch, and links the result |
| FreeList.Descriptor.MemFree | development/KL/Alloc/FreelistAlloc.c:360-405 | keeps the descriptor sound; the new list is the release of the block |
| DepGraph.HeaderDescribesEdges | development/CK/include/ckobjects.h:82-86 | in an indexed array the header of an object counts its edges, and the slice it names is exactly those |
| DepGraph.AddAppends | development/CK/graph.c:79-111 | an added edge comes after the other edges of its parent, and the edges of all other parents keep their order |
| DepGraph.AddKeepsIndex | development/CK/graph.c:79-111 | with the fix-ups of all runs that moved up, every header still describes its slice |
| DepGraph.RemoveKeepsIndex | development/CK/graph.c:114-139 | the same for a removal from any place |
| DepGraph.Graph.constructor | development/CK/graph.c:69-70 | the empty array is indexed |
| DepGraph.Graph.ShiftUp | development/CK/graph.c:96-103 | the shift opens a gap behind the run of the parent and moves the indices of exactly the later runs |
| DepGraph.Graph.AddObjectDep | development/CK/graph.c:79-111 | adds exactly one edge, at its sorted place, and keeps every header right |
| DepGraph.Graph.ShiftDown | development/CK/graph.c:130-136 | the shift closes the gap and moves the indices of exactly the runs behind it |
| DepGraph.Graph.RemoveObjectDep | development/CK/graph.c:114-139 | removes exactly one edge and keeps every header right |
| ObjectModel.RunsStayConsistent | development/CK/objmgmt.c:666-762 | over any run of cache and uncache calls the edges are exactly what the fields of live objects say, such fields name live objects only, and each object is on the peer list of its kind once |
| ObjectModel.OddFlagsStayLoaded | development/CK/objmgmt.c:631-631 | over any run an object whose flags word is odd stays loaded and unchanged, of whatever kind it is |
| ObjectModel.UnloadExact | development/CK/objmgmt.c:618-660 | an unload succeeds exactly when nothing that depends on the object is locked, and then takes exactly the object and everything reachable from it |
| ObjectModel.DependantGoes | development/CK/objmgmt.c:633-638 | what depends on the object directly goes with it |
| ObjectModel.NothingDangles | development/CK/objmgmt.c:618-660 | after it no edge, no peer list and no dependency field of a live object names anything unloaded |
| ObjectModel.KernelAddrSpaceDangles | development/CK/objmgmt.c:519-578 | not so for the address space of a kernel object, which registers no dependency: an unload leaves a live kernel naming an unloaded address space exactly if the kernel is another object and its address space is the object unloaded or depends on it |
| ObjectModel.KernelCanDangle | development/CK/objmgmt.c:519-578 | that happens: there is a consistent state, and an unload after which a live kernel names what was unloaded |
| ObjectModel.LockedNeverDone | development/CK/objmgmt.c:730-734 | while something below an unlocked object is locked, the object always has a dependant left, whatever unlocked objects were unloaded: the loop that ignores errors does not end |
| ObjectModel.LockedRoundsGoOn | development/CK/objmgmt.c:730-734 | after any number of rounds of that loop, whatever each of them returned, the object still has a dependant |
| ObjectModel.LockedHappens | development/CK/objmgmt.c:730-734 | there is a consistent state with a locked dependant, in which a round changes nothing |
| ObjectModel.RankDrops | development/CK/objmgmt.c:194-196 | dependencies lead only from kernels to address spaces to threads to shared memory, so there are no cycles |
| ObjectModel.PurgeConsistent | development/CK/objmgmt.c:618-660 | removing a set closed under dependence keeps everything consistent |
| ObjectModel.PurgeTwice | development/CK/objmgmt.c:633-638 | unloads in sequence are one unload of the union |
| ObjectModel.LoadConsistent | development/CK/objmgmt.c:194-196 | a load whose fields name live objects keeps everything consistent |
| ObjectModel.CascadeStep | development/CK/objmgmt.c:633-638 | what is unloaded on behalf of a dependant, in an array already shortened, extends the cascade of the parent |
| ObjectModel.CascadeExact | development/CK/objmgmt.c:618-660 | a cascade that took an object took exactly what is reachable from it |
| ObjectManager.Manager.RemoveDepSearch | development/CK/objmgmt.c:93-113 | removes the edge from parent to child, if there is one, and nothing else |
| ObjectManager.Manager.Delist | development/CK/objmgmt.c:262-265 | unlinks a header from its peer list, the others keeping their order |
| ObjectManager.Manager.Enlist | development/CK/objmgmt.c:160-163 | a new header is the last of its list and its head |
| ObjectManager.Manager.UnloadThreadObject | development/CK/objmgmt.c:205-308 | takes out exactly the thread with its edges and its place in the list |
| ObjectManager.Manager.UnloadAddrSpcObject | development/CK/objmgmt.c:380-412 | the same for an address space |
| ObjectManager.Manager.UnloadSHMemObject | development/CK/objmgmt.c:476-512 | the same for shared memory |
| ObjectManager.Manager.UnloadKernelObject | development/CK/objmgmt.c:580-611 | the same for a kernel |
| ObjectManager.Manager.UnloadDependants | development/CK/objmgmt.c:633-638 | the loop ends although every nested call shifts the array it indexes, and unloads a part of what depends on the object, or all of it |
| ObjectManager.Manager.UnloadObject | development/CK/objmgmt.c:618-660 | unloads a closed set of unlocked dependants; 0 exactly if the object itself is among them, ELOCKED (-6) only if something below it is locked; an object of any kind with an odd flags word is refused with the state unchanged, and none such ever goes |
| ObjectManager.Manager.UncacheObject | development/CK/objmgmt.c:712-762 | unloads exactly the object and everything reachable from it; an object of any kind whose flags word is odd is refused with -6 and nothing changes; no object with an odd flags word is unloaded |
| ObjectManager.Manager.UncacheRounds | development/CK/objmgmt.c:730-734 | the first n rounds of the loop, for any unlocked object: if something below it is locked, all n take place and there is a dependant left |
| ObjectManager.Manager.LoadThreadObject | development/CK/objmgmt.c:120-202 | returns the code of the first test that fails, in the order of the code, and changes nothing; or loads exactly the thread asked for, with its flags, address space, quantum and deferral; -1 gives it the parent kernel of the current thread, or none if there is no current thread; it hangs on its address space and its parent kernel |
| ObjectManager.Manager.LoadAddrSpcObject | development/CK/objmgmt.c:315-378 | the same for an address space |
| ObjectManager.Manager.LoadSHMemObject | development/CK/objmgmt.c:419-474 | the same for shared memory |
| ObjectManager.Manager.LoadKernelObject | development/CK/objmgmt.c:519-578 | the same for a kernel |
| ObjectManager.RefusalCodes | development/CK/objmgmt.c:140-150 | the tests of the four load functions, in their order and with their codes, for every request |
| ObjectManager.InheritedGoes | development/CK/objmgmt.c:165-171 | a thread loaded with -1 for its parent kernel is unloaded when the parent kernel of the thread that loaded it is |
| ObjectManager.Manager.CacheObject | development/CK/objmgmt.c:666-710 | loads exactly the object asked for, of that kind and with those fields (a parent kernel of -1 is that of the current thread), with the edges from what they name, or returns the code of the first test that fails and changes nothing; an unknown signature is EUNDEFOBJ |
| ObjectManager.Manager.Serve | development/CK/objmgmt.c:666-762 | each of these calls, whatever it returns (a refusal for a locked object as well), is one step of the runs above |
| TimeOrder.WindowOrder | development/CK/include/architecture/I80X86/arith.h:38-39 | for times in one half of the circle the wrap-around comparisons are the order of their distances from its beginning |
| TimeOrder.RootIsEarliest | development/CK/pri_heap.c:58-122 | in a heap of such times no entry is earlier than the root |
| TimeOrder.UpStep | development/CK/pri_heap.c:154-160 | one round of sift-up keeps the heap in order but for the new place |
| TimeOrder.DownStep | development/CK/pri_heap.c:186-192 | one round of sift-down keeps the heap in order but for the new place |
| TimeOrder.MinChildIs | development/CK/pri_heap.c:120-122 | the child with the earlier time is the right one unless there is none or the left one is earlier |
| TimeOrder.PromoteEarly | development/CK/pri_heap.c:256-259 | any entry that gets the time of the root is at most too early for its place |
| TimeOrder.LastIntoLate | development/CK/pri_heap.c:214-227 | if the last entry is not earlier than the parent of the hole, it can sink from there |
| TimeOrder.LastIntoStuck | development/CK/pri_heap.c:214-230 | if it is earlier, it stays there and the order is lost |
| TimeOrder.MiddleRemovalLosesOrder | development/CK/pri_heap.c:214-230 | that happens: six keys in order, whose removal from the middle is not |
| TimeOrder.ChildrenOfSlot | development/CK/pri_heap.c:114-115 | the doubled addresses are those of the children 2n+1 and 2n+2 |
| TimeOrder.ParentOfSlot | development/CK/pri_heap.c:116 | for a 4-aligned heap above 0x80000000 the shifted and masked address is that of the parent (n-1)/2 |
| PriorityHeap.HeapSelector.Rise | development/CK/pri_heap.c:154-163 | the sift-up loop keeps the members and their back-pointers, ends in order if only the newcomer was early, and never moves a root that is not later |
| PriorityHeap.HeapSelector.Sink | development/CK/pri_heap.c:186-195 | the sift-down loop keeps the members and their back-pointers, and ends in order if only the first entry was late |
| PriorityHeap.HeapSelector.MinChildOf | development/CK/pri_heap.c:120-122 | finds the child with the earlier time, the right one on a tie, and none beyond the last slot |
| PriorityHeap.HeapSelector.SiftUp | development/CK/pri_heap.c:134-164 | adds exactly one member, in order if the heap was, and keeps a root that is not later |
| PriorityHeap.HeapSelector.SiftDown | development/CK/pri_heap.c:167-196 | keeps the members and restores the order if only the root was late |
| PriorityHeap.HeapSelector.RemoveEvent | development/CK/pri_heap.c:199-231 | removes exactly one member from any place; the order survives exactly if the last entry is not earlier than the parent of the hole, and always at the root |
| PriorityHeap.HeapSelector.Prioritise | development/CK/pri_heap.c:234-271 | a timesharing event gets the time of the root and rises; members and order stay, and so does the root |
| Scheduling.Scheduler.BlockThread | development/CK/sched.c:463-502 | the thread is in no heap, all others where they were; the order survives exactly if the last event of the heap fits into the hole; the running thread keeps its root |
| Scheduling.Scheduler.UnblockThread | development/CK/sched.c:505-538 | a blocked thread joins the timesharing heap with the time of its first event; the order survives, and so does the place of the running thread |
| Scheduling.Scheduler.IdleThread | development/CK/sched.c:541-574 | the same for the idle heap |
| Scheduling.Scheduler.EntryIs | development/CK/sched.c:520-530 | the time of a newcomer is that of the event in slot 0 of the heap, or 0 if the heap is empty |
| Scheduling.Scheduler.SetThreadState | development/CK/sched.c:660-751 | every thread stays in the heap of its state and no other; a request for realtime is refused; the time entered is that of the first event and is passed to the thread object; heaps in order stay so exactly if the state does not change or the last event of the heap left fits into the hole |
| Scheduling.Scheduler.SwapTo | development/CK/sched.c:605-643 | the current thread is blocked and the other one timesharing, both in their heaps; the heaps stay in order if the last events of the two heaps fit, one after the other; the current thread keeps its root |
| Scheduling.Scheduler.Prioritise | development/CK/pri_heap.c:234-271 | a timesharing thread gets the time of the first event, any other keeps its own; the heaps stay in order, and the running thread keeps its root |
| Scheduling.Scheduler.Retire | development/CK/objmgmt.c:256 | an unloaded thread is in no heap; heaps in order stay so exactly if the last event of its heap fits into the hole |
| Scheduling.Scheduler.FlushPrevTask | development/CK/sched.c:97-146 | the thread ends in the heap that its next time calls for, with its time deferred, kept, or taken from the first timesharing thread; if nothing but its own key was late, all three heaps are in order |
| Scheduling.FlushedTimes | development/CK/sched.c:113-140 | the time in every case: a timesharing thread that is not ahead and an idle one other than the loop are deferred, a realtime thread that is not ahead takes the time of the first timesharing thread, all others keep theirs |
| Scheduling.Scheduler.FlushTimesharing | development/CK/sched.c:113-120 | a timesharing thread whose next time has moved ahead becomes realtime, otherwise it is deferred |
| Scheduling.Scheduler.FlushRealtime | development/CK/sched.c:123-131 | a realtime thread whose next time has not moved ahead falls back to timesharing |
| Scheduling.Scheduler.FlushIdle | development/CK/sched.c:133-137 | an idle thread is deferred, the idle loop is not |
| Scheduling.Scheduler.GetNextTask | development/CK/sched.c:149-239 | a due realtime thread, else a timesharing one, else an idle one, else the idle loop; the period is the quantum, cut off at the next realtime invocation, whatever the clock has wrapped to, exactly if the quantum is fair: the time left until then less the quantum is below 2^31. Otherwise it is that time |
| Scheduling.Preempted | development/CK/sched.c:186-187 | for every quantum: the wrap-around test holds exactly if the quantum is at least the time left, or so far below it that their difference is 2^31 or more, and the shortened period is the time left |
| Scheduling.NegativeQuantumCut | development/CK/sched.c:186-187 | the second case happens: a quantum of -0x70000000 with 0x70000000 ticks left is taken for one that is too long |
| Scheduling.Scheduler.Schedule | development/CK/sched.c:242-259 | the previous thread has the state and the time so computed from that of its thread object; the thread chosen is at the root of its heap, all heaps are in order if they were but for the previous thread, and the period is granted as above; then a thread with an earlier one in its state is not chosen |
| Scheduling.Scheduler.DeferredWaits | development/CK/sched.c:113-115 | so a timesharing thread that was not ahead does not run on while another one is earlier than its time and its deferral |
| Scheduling.Scheduler.ChoiceMeans | development/CK/sched.c:165-238 | what is chosen and for how long, in terms of the roots, the clock and the fudge |
| Scheduling.Scheduler.RootIsFirst | development/CK/sched.c:165-238 | so the thread chosen is not later than any other of its heap |
| Profiler.Table.Mcount | development/CK/monitor/profiler.c:288-398 | one call changes the counting table exactly as the simple map does, and keeps the chains: acyclic, disjoint, one arc per callee, covering exactly the arcs in use |
| Profiler.RunCounts | development/CK/monitor/profiler.c:305-397 | over any run of calls the table holds, for every call site and callee, exactly the number of their calls in the longest beginning that fits; recording stops exactly if a call does not fit |
| Profiler.Session | development/CK/monitor/profiler.c:288-541 | from the jumps to the records: after a run whose calls all fit there is exactly one record for every 4 bytes of text and every function between which there were jumps, with the address of the 4 bytes, that of the function, and the number of those jumps modulo 2^32; after one that does not fit there is none |
| Profiler.OccurrencesCount | development/CK/monitor/profiler.c:317-388 | a count is the number of places in the run with a jump from those 4 bytes to that function |
| Profiler.JumpRecorded | development/CK/monitor/profiler.c:527-541 | for every jump from inside the text there is a record |
| Profiler.TallyStep | development/CK/monitor/profiler.c:320-397 | one more call keeps the counts exact, or is the first that needs more arcs than there are |
| Profiler.EndOfTextHasNoBucket | development/CK/monitor/profiler.c:317-322 | among the addresses that pass the bounds test, exactly the end of the text has no bucket |
| Profiler.Table.NewArc | development/CK/monitor/profiler.c:325-334 | takes the next arc for a new callee, or reports the overflow and records nothing |
| Profiler.Table.ChargeArc | development/CK/monitor/profiler.c:374-386 | charges an arc and moves it to the front; no other count changes |
| Profiler.Table.FollowChain | development/CK/monitor/profiler.c:351-388 | finds the arc behind the head of the chain or adds one |
| Profiler.ChainFront | development/CK/monitor/profiler.c:380-385 | the three assignments of the move to the front spell out the reordered chain |
| Profiler.ChainedFront | development/CK/monitor/profiler.c:380-385 | and leave every other chain as it is |
| Profiler.NotCalled | development/CK/monitor/profiler.c:351-373 | a callee that the chain of its bucket does not name has not been called from there |
| Profiler.Table.SendChain | development/CK/monitor/profiler.c:533-539 | sends one chain, each of its calls once |
| Profiler.Table.Cleanup | development/CK/monitor/profiler.c:527-541 | sends every call of the table exactly once, with the address of its bucket and its count modulo 2^32; nothing after an overflow |
| GdbPacket.PutFrags | development/CK/monitor/gdb-stub.c:348-437 | the packet is the body, its sum modulo 256 in two digits and the delimiters; unless a raw fragment contains a star, the body decodes to the fragments as they are meant; it contains a "#" exactly if a raw fragment does or has a run of 7 modulo 98, never for hexadecimal ones, and the receiver then gets the whole body |
| GdbPacket.StarMayHarm | development/CK/monitor/gdb-stub.c:365-424 | one raw fragment with a star is read as it is meant, another is read as a run |
| GdbPacket.SendFrag | development/CK/monitor/gdb-stub.c:365-424 | the same for one fragment, of either kind and either way of giving its length |
| GdbPacket.RunAt | development/CK/monitor/gdb-stub.c:370-384 | the condition holds exactly where at least four equal characters are to be sent |
| GdbPacket.RunEnd | development/CK/monitor/gdb-stub.c:389-398 | the run is as long as it is, but at most 98 characters |
| GdbPacket.CodedIs | development/CK/monitor/gdb-stub.c:400-411 | a run of n is sent as the character, a star and the character n + 28 |
| GdbPacket.SevensSkip | development/CK/monitor/gdb-stub.c:389-411 | what is taken off a run does not change whether some run has a length of 7 modulo 98, unless it is that one |
| GdbPacket.SevensOfOneRun | development/CK/monitor/gdb-stub.c:389-411 | a fragment of n equal characters has a run of 7 modulo 98 exactly if n is 7 modulo 98 |
| GdbPacket.DecodesOneMore | development/CK/monitor/gdb-stub.c:400-411 | each character or run sent adds exactly what it stands for to what the receiver reads |
| GdbPacket.HexifyRun | development/CK/monitor/gdb-stub.c:400-411 | equal bytes with equal nibbles are twice as many equal digits |
| GdbPacket.HexChars | development/CK/monitor/gdb-stub.c:115 | the digits are those of the string in the source |
| GdbPacket.HexReads | development/CK/monitor/gdb-stub.c:186-192 | the sixteen digits of either case are read as their values, and no other character is a digit |
| GdbPacket.Hex2Bin | development/CK/monitor/gdb-stub.c:194-208 | reads the digits in pairs; fails exactly if one is no digit, having written the bytes before it |
| GdbPacket.HexRoundTrip | development/CK/monitor/gdb-stub.c:186-208 | the digits of any bytes stand for these and for no others: hex2bin undoes the hexadecimal form |
| GdbPacket.ReceivedBody | development/CK/monitor/gdb-stub.c:426-432 | a body without "#" ends where the packet says |
| StringMatch.Match | development/KL/String/StringMatch.c:59-118 | the first place where the needle occurs, NIL exactly if it occurs nowhere; neither string is read behind its NUL |
| StringMatch.Skip | development/KL/String/StringMatch.c:90-94 | the search in steps of two misses no place |
| StringMatch.RestMatches | development/KL/String/StringMatch.c:100-109 | the comparison in steps of two ends with NUL exactly if the whole needle stands there |
| IoRegions.IoSpace.FindGap | development/CK/resource.c:78-106 | for every base and limit a gap is found exactly if the range is not empty and every region that begins below the 32-bit sum of base and limit ends at or below the base; the gap lies between those regions and the others |
| IoRegions.IoSpace.AllocIoRegion | development/CK/resource.c:108-175 | the errors in their order, for every range; on success exactly one region more, last in its owner's list, everything linked; the regions stay in order exactly unless a range that wraps was let in |
| IoRegions.IoSpace.FreeIoRegion | development/CK/resource.c:177-211 | exactly one region less, in both lists |
| IoRegions.FarBehind | development/CK/resource.c:90-105 | sorted neighbours make all regions disjoint |
| IoRegions.AnswerIsRight | development/CK/resource.c:78-106 | for a range that does not wrap, or is empty, the answer is whether there is room; for one that wraps it is right exactly if all regions end at or below the base, or one of those that begin below the wrapped sum ends behind it |
| IoRegions.AnswerIsWrong | development/CK/resource.c:78-106 | an answer that is wrong: a range is let in that covers a region |
| IoRegions.OrderAfter | development/CK/resource.c:90-105 | an insertion at the gap found leaves the regions sorted, disjoint and in the address space exactly if the range does not wrap |
| IoRegions.AssignedNew | development/CK/resource.c:160-167 | the new region extends its owner's list and leaves the others as they are |
| IoRegions.AssignedGone | development/CK/resource.c:196-203 | the freed region leaves its owner's list and no other |
| NumberFormat.IntToAscii | development/KL/String/StringFormat.c:74-150 | for every base from 2 to 36, number and combination of flags the field is the layout: sign, prefix, zeros and digits, filled to the width on the side the flags say; no field for other bases |
| NumberFormat.LayoutLength | development/KL/String/StringFormat.c:102-147 | the field is as long as the width, or as the sign, the prefix and the digits or precision if they need more |
| NumberFormat.LayoutParts | development/KL/String/StringFormat.c:130-147 | sign and prefix, the padded digits, and the blanks or zeros before, between or behind them |
| NumberFormat.SignIs | development/KL/String/StringFormat.c:102-114 | the sign: a minus for a negative number, else a plus or a blank if one is asked for, and none for unsigned numbers |
| NumberFormat.PrefixIs | development/KL/String/StringFormat.c:135-141 | the prefix: 0 for octal, 0x or 0X for hexadecimal numbers |
| NumberFormat.DigitChars | development/KL/String/StringFormat.c:94-96 | the digits are those of the two strings in the source |
| NumberFormat.DigitsAreRight | development/KL/String/StringFormat.c:127-128 | the digits stand for the number, are digits of the base, and do not begin with a zero unless it is 0 |
| NumberFormat.Digits | development/KL/String/StringFormat.c:124-128 | they are produced in reverse, in as many places as there are digits, at most 32 of the 66 |
| NumberFormat.NextAsciiToInt | development/KL/String/StringFormat.c:153-169 | the value of the leading digits, modulo 2^32 as a signed number, and the place behind them |
| NumberFormat.AsciiToInt | development/KL/String/StringFormat.c:371-383 | the same for a whole string |
| NumberFormat.ReadsBack | development/KL/String/StringFormat.c:371-383 | a number from 0 to 2^31-1 written without flags is read back, unless the width puts blanks before it; then 0 is read |

## Left out

- The chunk callbacks and DisallowFreeChunk of the allocator, which the Cache Kernel leaves at NIL (development/CK/memory.c:190-192): MemAlloc and MemAllocAlign have no retry.
- KLfreeListMemAllocRegion: it can leave a tail smaller than a header, and stops its search early.
- Arena.RunsConserve: aligned requests above 2^32 - 4, after which the descriptor may be unsound, are no steps of its runs; a plain one above that is a step that returns an address without taking any memory.
- The header still linked in a peer list when hardware preprocessing of a thread, the copy of a shared memory descriptor or a signal handler fails (development/CK/objmgmt.c:189-192, 366-369, 567-570): preprocessing is taken to succeed.
- A thread that unloads itself, or is unloaded while it runs (development/CK/objmgmt.c:219-253, 276-305), which the source itself calls unfinished.
- The scheduler calls inside thread unloading: the object manager and the scheduler are two models; `Retire` is the scheduler's side.
- ObjectManager.Manager.UnloadThreadObject: requires that the thread is not the current one; unloading that, the source hands the processor over for good in the middle of the call.
- ObjectManager.Manager.UnloadDependants: requires that the current thread does not depend on the object, for the same reason.
- ObjectManager.Manager.UnloadObject: requires the same.
- ObjectManager.Manager.UncacheRounds: requires the same.
- ObjectManager.Manager.UncacheObject: requires the same, and that nothing is locked below an unlocked object, because the loop of the source does not end otherwise; what its rounds do then is `UncacheRounds`.
- ObjectManager.Manager.LoadSHMemObject: requires a current thread, which the source dereferences without a test, and one allocation instead of two; when the second fails, the source frees a header that is still linked (development/CK/objmgmt.c:459-462).
- The capability and writeback fields of headers, and signals.
- CKschedule after the context switch: the writeback of the times and pending signals. Calibration of the fudge, timer programming and the context switch itself.
- Times outside one half of the circle: heap order is claimed inside one; membership and back-pointers always.
- Scheduling.Scheduler.SwapTo: does not state the time with which the other thread enters; where the two threads are the same, only its state and the order are stated.
- The histogram of the profiler, its start and stop, and recording again after an overflow.
- Profiler.Table.Mcount: requires an address other than the end of the text, which has no bucket.
- The repetition of a packet until it is acknowledged, receiving packets, and the commands of the debugger.
- GdbPacket.PutFrags: states decoding only if no raw fragment contains a star, which is sufficient but not necessary (`StarMayHarm`); does not claim that "$" is absent from the body.
- IoRegions.IoSpace.AllocIoRegion: requires regions in order, so that it says nothing about calls after a range that wraps was let in; a failed allocation also leaves the mutex locked in the source, and mutexes are not modelled.
- DMA channels, interrupts, traps and physical regions.
- NumberFormat.IntToAscii: width and precision are integers without overflow; only their sums near 2^31 would differ.
- NumberFormat.NextAsciiToInt: signed overflow is taken to wrap.
- The rest of formatted output (KLformatToString), BitmapAlloc, queues, memory copying, the parallel and serial port handshakes, and everything above the kernel and its library.
