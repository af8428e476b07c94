# precisepp: a precise, reference-counting-assisted mark-and-sweep collector, in Dafny

precisepp is a C++ garbage collector library. Objects of type `T` live in
slots of a per-type space. Programs hold them through `traced_ptr<T>` handles.
Each slot carries a reference count of the handles that hold it.
A collection finds the roots without scanning the stack:

1. `save_counts` copies every used slot's reference count into its root count.
2. `find_roots` traces every used object and subtracts one from the root count
   of each slot a handle inside the heap points to.
   What is left is the number of handles *outside* the heap.
3. `mark` marks, depth first, everything reachable from a slot whose root count
   is still positive.
4. `sweep` frees every unmarked slot and clears the survivors' marks.
   It then adds a page when more than three quarters of the space is live.

This project models that engine and proves that it collects exactly the objects
that handles outside the heap cannot reach.

The modules follow the source.

| module | file | models |
|---|---|---|
| `Tracing` | tracing.dfy | The `Traceable` protocol (`precisepp/Traceable.h`, `src/stl.h`): the `contains_pointers` flag of every registered type, and `Trace`, the addresses a value's handles hold, in visiting order. |
| `Slot` | slot.dfy | The slot `Traced<T>` (`precisepp/Traced.h`): one union of header, free link or used object, plus the `free_` and `mark_` bits. |
| `HeapGraph` | heap_graph.dfy | The heap as a map from address to slot. Also its graph of handle edges, reachability, and the count arithmetic the phases perform, as pure functions. |
| `Memory` | memory.dfy | A `Memory` class: the mutable heap and the allocator it grows from. It holds the per-slot operations (`initialize_*_`, `inc_`/`dec_`, `mark_recursively_`) and the counting invariant `Counted`. `Counted` says every used slot's reference count equals the handles outside the heap plus the in-heap edges to it. |
| `PageLayout` | page_layout.dfy | A `Typed_space`'s page list, free list and sizes as a `SpaceView` value, and its invariant `SpaceInv`. |
| `Phases` | phases.dfy | The four phases as loops over one space's used slots, proved against `HeapGraph`'s functions. |
| `Collection` | collection.dfy | The heap invariant across all registered spaces, and why the four phases together keep exactly the reachable objects. |
| `Arena` | arena.dfy | The classes `Typed_space` and `Collector` of `precisepp/`, and the earlier `src/Typed_space.h` variant, which differs in its first page size and its out-of-memory path. |
| `SetArena` | set_space.dfy | The earlier set-based space `TypedSpace<T>` (`src/TypedSpace.h`). |
| `Handles` | handles.dfy | `traced_ptr` (`src/traced_ptr.h`) over the set-based space. |
| `BitmapAllocator` | bitmap.dfy | The fixed-capacity bitmap allocator `GC_allocator` (`src/allocator.h`). |
| `CountMaps` | count_map.dfy | `count_map` (`src/util/count_map.h`). |
| `LinkedList` | linked_list.dfy | The example program's `node` and `cons` (`test/linked_list.h`) and its `main` (`test/main.cpp`), over the set-based space. |

Integers are unbounded.
`count_map`'s counts wrap at 2^64, and the model writes that out.

Placement `new` and the object's destructor appear as their effect on counts.
The new object's handle members are copies of handles held outside the heap,
so each raises its target's count. The destructor lowers them again.
Copy-assigning to a handle member of a managed object, as `test/main.cpp`
does to close its list into a cycle, lowers the old target's count and raises
the new one's, and changes that object's edges in the heap graph.

## Model

| member | source | states |
|---|---|---|
| `CountMaps.Lookup` | src/util/count_map.h:22-29 | a missing key counts 0, a present key its stored count |
| `CountMaps.Stored` | src/util/count_map.h:33-43 | afterwards the key reads back the value and every other key reads as before; storing 0 under a missing key inserts nothing; storing 0 under a present key leaves a stored zero, which breaks "no stored zeros" |
| `CountMaps.StoredErasingZero` | src/util/count_map.h:33-43 | the corrected set: reads back the value, leaves other keys alone, erases the key on 0, keeps "no stored zeros" |
| `CountMaps.CountMap.Set` | src/util/count_map.h:33-43 | the container becomes `Stored` of the old one and `get` returns the value |
| `CountMaps.CountMap.SetErasingZero` | src/util/count_map.h:33-43 | the container becomes `StoredErasingZero` of the old one and `get` returns the value |
| `CountMaps.Bumped` | src/util/count_map.h:45-54 | returns the old count plus one modulo 2^64 (1 for a missing key), which `get` then returns; the key set gains the key; other keys unchanged; no stored zeros kept unless the count wraps |
| `CountMaps.CountMap.Inc` | src/util/count_map.h:45-54 | in place, the container and result are `Bumped` of the old container and `get` returns the result |
| `CountMaps.Dropped` | src/util/count_map.h:56-65 | a missing key is a no-op returning 0; a count that reaches 0 is erased; keys only shrink; other keys unchanged; a stored zero wraps to 2^64-1; no stored zeros is kept |
| `CountMaps.CountMap.Dec` | src/util/count_map.h:56-65 | in place, the container and result are `Dropped` of the old container and `get` returns the result |
| `CountMaps.IncThenDec` | src/util/count_map.h:45-65 | with no stored zeros and no wrap, `inc` then `dec` gives back the whole map and returns the original count |
| `CountMaps.ZeroSetThenDecWraps` | src/util/count_map.h:33-65 | `set(k,1)`, `set(k,0)`, `dec(k)` leaves k counted 2^64-1 |
| `CountMaps.ZeroSetThenDecErased` | src/util/count_map.h:33-65 | with the corrected set the same sequence leaves k absent and `dec` returns 0 |
| `CountMaps.CountMap.Keys` | src/util/count_map.h:67-70 | an iteration order lists every stored key exactly once and nothing else |
| `CountMaps.CountMap.Range` | src/util/count_map.h:67-75 | a range-for from `begin` to `end` yields the entries between them in iteration order, each with its stored count |
| `CountMaps.CountMap.EntriesAsWritten` | src/util/count_map.h:72-75 | because `end()` returns `begin()`, iterating yields nothing, fewer entries than the map holds whenever it is non-empty |
| `CountMaps.CountMap.Entries` | src/util/count_map.h:67-75 | with `end()` at the container's end, each stored key is yielded exactly once with its count |
| `BitmapAllocator.GcAllocator.constructor` | src/allocator.h:29-36 | capacity 1024, no cell used or marked, no root counts |
| `BitmapAllocator.FirstUnused` | src/allocator.h:47-52 | the lowest index whose used bit is clear (every lower bit set), or none when all are set |
| `BitmapAllocator.FirstUnusedIs` | src/allocator.h:47-52 | an index whose bit is clear with every lower bit set is the one `FirstUnused` finds |
| `BitmapAllocator.GcAllocator.Allocate` | src/allocator.h:44-56 | builds the object in the cell at `FirstUnused`, setting only that used bit and that cell; needs a free cell, as the source's `assert(false)` demands |
| `BitmapAllocator.Destroyed` | src/allocator.h:58-68 | null or an unused cell changes nothing; a used cell loses its bit and its object; every other cell is unchanged |
| `BitmapAllocator.DestroyTwice` | src/allocator.h:58-68 | destroying twice is destroying once |
| `BitmapAllocator.DestroyedHolds` | src/allocator.h:58-68 | destroying keeps "a cell holds an object exactly when its bit is set" |
| `BitmapAllocator.GcAllocator.Destroy` | src/allocator.h:58-68 | in place, bits and cells become `Destroyed` of the old ones |
| `BitmapAllocator.GcAllocator.Mark` | src/allocator.h:70-74 | sets exactly the pointer's mark bit; null changes nothing |
| `BitmapAllocator.GcAllocator.ClearMarks` | src/allocator.h:76-79 | every mark bit is clear afterwards |
| `BitmapAllocator.GcAllocator.Inc` | src/allocator.h:81-84 | null leaves the root counts alone; otherwise they become `Bumped` at the pointer |
| `BitmapAllocator.GcAllocator.Dec` | src/allocator.h:86-89 | null leaves the root counts alone; otherwise they become `Dropped` at the pointer |
| `Tracing.AnyContainsPointersIff` | precisepp/Traceable.h:37-48 | the flag of a type list is true exactly when some listed type's flag is; an empty list is false |
| `Tracing.TupleCountDownInOrder` | src/stl.h:118-157 | the count-down recursion traces a tuple's elements in index order, each once |
| `Tracing.TraceEachAppend` | precisepp/Traceable.h:108-132 | tracing two runs of elements one after the other visits the first run's handles, then the second's |
| `Tracing.PointerFreeTracesNothing` | precisepp/Traceable.h:108-132 | a value whose type's flag is false visits no handle, whatever nesting of smart pointers, containers, pairs, arrays and tuples it has, so the container rules may skip their loop |
| `Tracing.DishonestFlagHidesHandle` | precisepp/Traceable.h:108-119 | a user type that declares itself pointer-free while holding a handle is skipped inside a container, although it traces its handle on its own |
| `Slot.AsHeader` | precisepp/Traced.h:77-81 | a page header holds the page size and next page; the free and mark bits are untouched |
| `Slot.AsFree` | precisepp/Traced.h:85-89 | a free cell holds its successor, its free bit is set, its mark untouched |
| `Slot.AsUsed` | precisepp/Traced.h:93-98 | a used slot has count 0 and both bits clear, and keeps whatever object and root count were there |
| `Slot.WithMark` | precisepp/Typed_space.h:243-244 | only the mark bit changes |
| `HeapGraph.SaveCounts` | precisepp/Typed_space.h:211-216 | each listed used slot's root count becomes its reference count; nothing else changes |
| `HeapGraph.LowerRoots` | precisepp/Typed_space.h:220-228 | each used slot's root count drops by the number of listed edges to it; nothing else changes |
| `HeapGraph.RaiseRefs` | src/TypedSpace.h:70-75 | each used slot's reference count rises by its multiplicity; nothing else changes |
| `HeapGraph.LowerRefs` | src/TypedSpace.h:77-82 | each used slot's reference count falls by its multiplicity; a slot that is not used, null or already freed, is left as it was |
| `HeapGraph.ReachIsClosed` | precisepp/Typed_space.h:174-184 | the slots reachable from the roots contain the roots and every target of their edges |
| `HeapGraph.ClosedContainsReach` | precisepp/Typed_space.h:174-184 | every edge-closed set holding the roots holds all that is reachable, so reachability is the least such set |
| `HeapGraph.ReachInSubgraph` | src/Collector.cpp:25-38 | in a heap that keeps exactly the reachable slots with their objects, the same slots are reachable |
| `HeapGraph.InEdgesUnion` | src/Collector.cpp:31-32 | the in-edges of disjoint groups of slots add up, so spaces may lower root counts one after another |
| `HeapGraph.SaveCountsCompose` | src/Collector.cpp:29-30 | saving counts for one group of slots then another equals saving them for both at once |
| `HeapGraph.LowerRootsCompose` | src/Collector.cpp:31-32 | lowering root counts by two multisets in turn equals lowering them by their sum |
| `Memory.Memory.AllocatePage` | precisepp/Typed_space.h:87-88 | the allocator returns either null, changing nothing, or `n` fresh consecutive slots above every existing one, leaving the rest untouched |
| `Memory.Memory.InitializeHeader` | precisepp/Traced.h:77-81 | only that slot changes, to `AsHeader` of itself |
| `Memory.Memory.InitializeFree` | precisepp/Traced.h:85-89 | only that slot changes, to `AsFree` of itself |
| `Memory.Memory.InitializeUsed` | precisepp/Traced.h:93-98 | only that slot changes, to a used slot that keeps its leftover object and root count |
| `Memory.Memory.IncRef` | src/traced_ptr.h:91-94 | null changes nothing; otherwise the target's count rises by one |
| `Memory.Memory.DecRef` | src/traced_ptr.h:96-99 | null changes nothing; otherwise a target that is a used slot has its count fall by one, and any other target is left alone |
| `Memory.Memory.Hold` | precisepp/Typed_space.h:41-43 | the new handle is one more outside the heap and raises its slot's count by one |
| `Memory.Memory.Acquire` | src/traced_ptr.h:31-35 | a copied handle joins those outside the heap and raises its target's count |
| `Memory.Memory.Drop` | src/traced_ptr.h:56-59 | a destroyed handle leaves those outside the heap and lowers its target's count |
| `Memory.Memory.AcquireEdges` | precisepp/Typed_space.h:147-148 | raises the count of every target of the new object's handles, once per handle |
| `Memory.Memory.Construct` | precisepp/Typed_space.h:147-148 | the slot holds the new object and the targets of its handle members are counted |
| `Memory.Memory.ReleaseEdges` | precisepp/Typed_space.h:165-167 | the destructor lowers the count of every target of the object's handles that is still a used slot, once per handle |
| `Memory.Memory.SaveRootCount` | precisepp/Typed_space.h:213-215 | only that slot changes: its root count becomes its reference count |
| `Memory.Memory.ClearMark` | precisepp/Typed_space.h:243-244 | only that slot's mark changes, to clear |
| `Memory.Memory.LowerRootCounts` | precisepp/Typed_space.h:222-227 | the root count of each non-null target drops once per edge |
| `Memory.Memory.MarkRecursively` | precisepp/Typed_space.h:174-184 | marks only reachable slots, including the start slot, changes nothing but marks, and leaves every newly marked slot's targets marked |
| `Memory.MarkedFromUnion` | src/Collector.cpp:33-34 | marking from one root set and then another is marking from their union |
| `Memory.MarkedFromOneMore` | precisepp/Typed_space.h:231-237 | one more `mark_recursively_` call extends the root set by one slot |
| `Memory.MarkedExactlyReach` | precisepp/Typed_space.h:231-237 | starting with no marks, marking from the roots marks exactly the reachable slots |
| `Memory.DeallocatedCounted` | precisepp/Typed_space.h:165-170 | freeing a used slot that no outside handle holds keeps every count exact |
| `Memory.DeallocatedFrame` | precisepp/Typed_space.h:165-170 | freeing takes exactly that slot out of use; every other slot keeps its object, mark and free bit |
| `Memory.CountedAfterRelease` | precisepp/Typed_space.h:240-247 | releasing an unheld dead slot's handles and freeing it keeps the counting exact |
| `Memory.CountedAfterConstruct` | precisepp/Typed_space.h:137-155 | filling a free slot with an object whose handles copy outside handles keeps the counting exact and the edges closed |
| `Memory.CountedAfterHold` | precisepp/Typed_space.h:41-43 | handing a used slot to a new handle keeps the counting exact with one more outside handle |
| `Memory.CountedAfterAcquire` | src/traced_ptr.h:31-35 | copying a handle keeps the counting exact |
| `Memory.CountedAfterDrop` | src/traced_ptr.h:56-59 | destroying a handle keeps the counting exact |
| `Memory.RaiseAfterLower` | src/traced_ptr.h:42-48 | releasing a target and taking it again gives back the heap, so self-assignment is harmless |
| `Memory.GainedSlots` | precisepp/Typed_space.h:82-102 | fresh unused slots change neither the used slots, the graph, the counting nor the absence of marks |
| `PageLayout.EmptySpace` | precisepp/Typed_space.h:67-76 | a new space has no pages, no free cells, zero sizes and the first page size next |
| `PageLayout.EmptySpaceInv` | precisepp/Typed_space.h:67-76 | a new space satisfies the layout invariant over any heap |
| `PageLayout.LiveWithinHeap` | precisepp/Typed_space.h:58-62 | live size never exceeds heap size; the free list is empty exactly when they are equal, and its head is null exactly when it is empty |
| `PageLayout.AddedPage` | precisepp/Typed_space.h:82-102 | a new page goes in front; its cells after the header go on the free list highest first; heap size grows by the page size less one; the next page size doubles |
| `PageLayout.AddPageInv` | precisepp/Typed_space.h:82-102 | writing a fresh page keeps the layout invariant and leaves the used slots as they were |
| `PageLayout.PageSizeAtLeast` | precisepp/Typed_space.h:99 | every page is at least as large as the first |
| `PageLayout.PopInv` | precisepp/Typed_space.h:137-141 | taking the free list's head for a new object keeps the layout with exactly that slot newly used |
| `PageLayout.PopUndone` | precisepp/Typed_space.h:149-151 | putting the slot back after a throwing constructor restores the layout, with only its mark cleared |
| `PageLayout.PushInv` | precisepp/Typed_space.h:105-109 | putting a used slot on the free list keeps the layout with exactly that slot no longer used |
| `PageLayout.HeadersNotInBody` | precisepp/Typed_space.h:194 | no page header is an object slot, which is why the page walk starts at index 1 |
| `PageLayout.HeapOrderMember` | precisepp/Typed_space.h:188-201 | the page walk covers exactly the slots after each header |
| `PageLayout.UsedSlots` | precisepp/Traced.h:31-55 | inside the pages, a slot is one of the space's used slots exactly when it holds an object |
| `PageLayout.VisitsUsed` | precisepp/Typed_space.h:188-201 | `for_heap_` visits every used slot exactly once and nothing else |
| `PageLayout.FreeAfterSweep` | precisepp/Typed_space.h:249-250 | with pages and no more than three quarters live, the free list is non-empty |
| `Phases.RootsAmong` | precisepp/Typed_space.h:231-236 | exactly the used slots whose root count is positive |
| `Phases.Dead` | precisepp/Typed_space.h:240-247 | exactly the used slots left unmarked |
| `Phases.DeallocatedLayout` | precisepp/Typed_space.h:165-170 | `deallocate_` keeps the layout and moves the slot from the used set to the free list's head |
| `Phases.LoweredAll` | precisepp/Typed_space.h:220-228 | lowering slot by slot over the visits equals lowering by all their in-edges |
| `Phases.SweepOneKeeps` | precisepp/Typed_space.h:242-247 | sweeping one slot keeps the layout and the counting, frees it when unmarked and clears its mark otherwise |
| `Phases.SweptAll` | precisepp/Typed_space.h:240-248 | the whole loop frees exactly the dead slots and clears every survivor's mark |
| `Phases.RoomAfterSweep` | precisepp/Typed_space.h:249-250 | after a sweep that does not grow, the free list is non-empty |
| `Phases.RoomInAddedPage` | precisepp/Typed_space.h:249-250 | a grown space has free cells |
| `Phases.SaveCountsOf` | precisepp/Typed_space.h:211-216 | the loop's result is `SaveCounts` over the visited slots |
| `Phases.FindRootsOf` | precisepp/Typed_space.h:220-228 | the loop's result is lowering by the in-edges of the visited slots |
| `Phases.FindRootsAt` | precisepp/Typed_space.h:222-227 | one visited slot lowers the root counts of its targets |
| `Phases.MarkFrom` | precisepp/Typed_space.h:231-237 | the loop marks from exactly the visited slots that have a positive root count |
| `Collection.RegisteredKeeps` | precisepp/Typed_space.h:75 | registering a new empty space keeps the heap invariant |
| `Collection.RootsAreHeld` | precisepp/Typed_space.h:211-228 | after the first two phases every used slot's root count equals the number of outside handles that hold it, so the roots are exactly the held slots |
| `Collection.FoundAll` | src/Collector.cpp:29-32 | after the first two phases over every space, the roots are exactly the held slots, nothing is marked and the objects are untouched |
| `Collection.MarkedAll` | src/Collector.cpp:33-34 | after marking, the marked slots are exactly those reachable from the held ones |
| `Collection.SweptEverything` | precisepp/Typed_space.h:240-247 | a sweep over every used slot keeps exactly the marked ones, unmarked and with edges closed |
| `Collection.CollectedAll` | src/Collector.cpp:25-38 | after a collection the heap invariant holds, the used slots are exactly the reachable ones, and each keeps its object |
| `Collection.CollectAgainKeepsAll` | src/Collector.cpp:25-38 | a second collection with the same handles frees nothing |
| `Collection.GrewKeeps` | precisepp/Typed_space.h:121-134 | a fresh page keeps the heap invariant, used slots and graph |
| `Collection.FilledKeeps` | precisepp/Typed_space.h:137-155 | filling the free head keeps the heap invariant with exactly that slot newly used, count 0 |
| `Collection.ThrewKeeps` | precisepp/Typed_space.h:149-151 | a throwing constructor leaves the heap invariant, used slots and graph as they were |
| `Collection.HeldKeeps` | precisepp/Typed_space.h:41-43 | handing the new slot to a handle keeps the heap invariant with one more outside handle |
| `Arena.TypedSpace.constructor` | precisepp/Typed_space.h:67-76 | an empty space with first page size 1024, registered last with its collector, ready to allocate |
| `Arena.TypedSpace.Early` | src/Typed_space.h:66-75 | the same with first page size 16 |
| `Arena.TypedSpace.AddToFreeList` | precisepp/Typed_space.h:105-109 | the slot becomes the free list's head, linked to the old head |
| `Arena.TypedSpace.AddPage` | precisepp/Typed_space.h:82-102 | on allocator failure nothing changes; otherwise the view becomes `AddedPage` and the layout invariant holds |
| `Arena.TypedSpace.PushPageSlots` | precisepp/Typed_space.h:95-96 | the page's cells go on the free list highest first, linked in order, and nothing else changes |
| `Arena.TypedSpace.Deallocate` | precisepp/Typed_space.h:165-170 | the heap becomes `Deallocated`, the slot heads the free list, and live size drops by one |
| `Arena.TypedSpace.ForHeap` | precisepp/Typed_space.h:188-201 | the visits are the used slots in page order |
| `Arena.TypedSpace.WalkPage` | precisepp/Typed_space.h:194-199 | one page's visits are its used slots after the header |
| `Arena.TypedSpace.SaveCounts` | precisepp/Typed_space.h:211-216 | the heap becomes `SaveCounts` over the space's used slots |
| `Arena.TypedSpace.FindRoots` | precisepp/Typed_space.h:220-228 | the heap becomes lowered by the in-edges of the space's used slots |
| `Arena.TypedSpace.Mark` | precisepp/Typed_space.h:231-237 | marks from exactly the space's slots with a positive root count |
| `Arena.TypedSpace.Sweep` | precisepp/Typed_space.h:240-251 | frees exactly the dead slots, clears survivors' marks, keeps the counting, and on success leaves free cells whenever there are pages |
| `Arena.TypedSpace.SweepSlot` | precisepp/Typed_space.h:242-247 | one slot is swept as `SweepOne` says |
| `Arena.TypedSpace.GrowIfFull` | precisepp/Typed_space.h:249-250 | adds a page when more than three quarters are live, keeping used slots and the layout |
| `Arena.TypedSpace.ReadyInv` | precisepp/Typed_space.h:58-62 | a ready space's page and free heads are null exactly when its lists are empty |
| `Arena.TypedSpace.FirstPage` | precisepp/Typed_space.h:123-125 | a space with no pages gets its first page without collecting |
| `Arena.TypedSpace.Refill` | precisepp/Typed_space.h:121-134 | on success the free list is non-empty and every reachable object survives with its contents |
| `Arena.TypedSpace.TakeSlot` | precisepp/Typed_space.h:137-155 | the new object goes in the old free head, live size rises by one, and only that slot and its targets' counts change |
| `Arena.TypedSpace.TakeSlotThrows` | precisepp/Typed_space.h:147-152 | when the constructor throws, the space's view and every used slot are as before |
| `Arena.TypedSpace.PopFree` | precisepp/Typed_space.h:137-141 | pops the free list's head and initialises it as used |
| `Arena.TypedSpace.AllocateSlot` | precisepp/Typed_space.h:115-161 | either an object in a fresh slot, a throwing constructor with nothing lost, or out of memory with an empty free list (the earlier variant's `bad_alloc` at src/Typed_space.h:117-118, where this one asserts); reachable objects survive |
| `Arena.TypedSpace.Allocate` | precisepp/Typed_space.h:36-45 | the new object ends up held by one new handle with count 1, in a slot that was not reachable before |
| `Arena.TypedSpace.TotalSlots` | precisepp/Typed_space.h:263-266 | the capacity is the free cells plus the used slots |
| `Arena.TypedSpace.UsedSlots` | precisepp/Typed_space.h:268-271 | the live size is the number of used slots, never more than the capacity |
| `Arena.Collector.Register` | src/Collector.cpp:20-23 | the space is appended to the registry |
| `Arena.Collector.SaveCountsAll` | src/Collector.cpp:29-30 | the heap becomes `SaveCounts` over every space's used slots |
| `Arena.Collector.FindRootsAll` | src/Collector.cpp:31-32 | the heap becomes lowered by the in-edges of every space's used slots |
| `Arena.Collector.MarkAll` | src/Collector.cpp:33-34 | marks from every space's slots with a positive root count |
| `Arena.Collector.SweepAll` | src/Collector.cpp:35-36 | every space frees its dead slots; pages are kept; on success each space with pages has free cells |
| `Arena.Collector.Collect` | src/Collector.cpp:25-38 | the used slots become exactly those reachable from outside handles, each with its object; on success the heap invariant holds and every space with pages has free cells |
| `SetArena.SetSpace.constructor` | src/TypedSpace.h:48-52 | an empty object set over an empty heap |
| `SetArena.SetSpace.Allocate` | src/TypedSpace.h:54-61 | on allocator failure nothing changes; otherwise the object is in a slot not tracked before, which joins the set |
| `SetArena.SetSpace.Deallocate` | src/TypedSpace.h:63-68 | the slot leaves the set and is freed, with the counting kept |
| `SetArena.SetSpace.Inc` | src/TypedSpace.h:70-75 | null changes nothing; otherwise the target's count rises and one more outside handle holds it |
| `SetArena.SetSpace.Dec` | src/TypedSpace.h:77-82 | null changes nothing; otherwise the target's count falls and one outside handle fewer holds it |
| `SetArena.SetSpace.Snapshot` | src/TypedSpace.h:117-125 | lists each tracked object once |
| `SetArena.SetSpace.SaveCounts` | src/TypedSpace.h:95-99 | the heap becomes `SaveCounts` over the set |
| `SetArena.SetSpace.FindRoots` | src/TypedSpace.h:101-108 | the heap becomes lowered by the in-edges of the set |
| `SetArena.SetSpace.Mark` | src/TypedSpace.h:110-115 | marks from exactly the tracked slots with a positive root count |
| `SetArena.SetSpace.Sweep` | src/TypedSpace.h:117-125 | frees exactly the unmarked tracked slots and clears the survivors' marks |
| `SetArena.SetSpace.Collect` | src/TypedSpace.h:95-125 | the four phases leave exactly the objects reachable from outside handles, each with its contents |
| `SetArena.RootsFoundAlone` | src/TypedSpace.h:95-108 | after the first two phases the roots are exactly the held objects |
| `SetArena.MarkedAlone` | src/TypedSpace.h:110-115 | marking from them marks exactly the reachable objects |
| `SetArena.SweptAlone` | src/TypedSpace.h:117-125 | sweeping then keeps exactly those, unmarked |
| `SetArena.BuiltFresh` | src/TypedSpace.h:54-61 | constructing into a fresh cell keeps the counting, closed edges and absence of marks |
| `Handles.Handle.Empty` | src/traced_ptr.h:21-22 | null, holding nothing |
| `Handles.Handle.Adopt` | src/traced_ptr.h:24-29 | holds the allocated object and raises its count |
| `Handles.Handle.Copy` | src/traced_ptr.h:31-35 | same target, one count more, both handles live |
| `Handles.Handle.Move` | src/traced_ptr.h:37-40 | the corrected move: takes the target of a counted handle and leaves it null; no count changes and both handles are counted afterwards |
| `Handles.Handle.MoveAsWritten` | src/traced_ptr.h:37-40 | the move as written: the source ends up holding the new handle's uninitialised value |
| `Handles.Handle.CopyAssign` | src/traced_ptr.h:42-48 | the handle takes the other's target; the old target's count falls by one and the new one's rises by one, and the outside handles trade the old target for the new; assigning the same target changes nothing |
| `Handles.Handle.MoveAssign` | src/traced_ptr.h:50-54 | the two handles swap targets and no count changes |
| `Handles.Handle.Destroy` | src/traced_ptr.h:56-59 | the target is released: its count falls and one outside handle fewer holds it |
| `Handles.HeldIsTracked` | src/traced_ptr.h:84 | a live handle's non-null target is a tracked object |
| `Handles.MakeTraced` | src/traced_ptr.h:111-115 | a new handle holds a new object with count 1, or null with nothing changed when allocation fails |
| `Handles.HeldAfterTook` | src/Traced.h:16-21 | the new slot starts at count 0 and the first handle brings it to 1 |
| `Handles.MovedFromGarbageUncounted` | src/traced_ptr.h:37-40 | a moved-from handle holding a used slot it never counted breaks the counting |
| `Handles.DestroyedGarbageUncounted` | src/traced_ptr.h:56-59 | destroying that handle lowers a count no handle released, breaking it again |
| `Handles.MovedCounted` | src/traced_ptr.h:37-40 | with the corrected move the live handles, and so the counting, are unchanged |
| `Tracing.TraceAssignedMember` | src/traced_ptr.h:42-48 | after assigning a record's handle member, the record still traces every other member as before, with the new target where the old one was |
| `HeapGraph.AssignedEdges` | src/traced_ptr.h:42-48 | the object's edges lose one copy of the old target and gain one of the new; no other edge appears |
| `Memory.MemberAssignedSlots` | src/traced_ptr.h:42-48 | each used slot's count falls by the released target and rises by the new one, slot `x` holds the assigned object, and unused slots are untouched |
| `Memory.MemberAssignedKeeps` | src/traced_ptr.h:42-48 | the used slots, every slot's kind and mark, and every edge except the assigned object's are unchanged; that object's edges become the assigned object's |
| `Memory.CountedAfterAssign` | src/traced_ptr.h:42-48 | assigning a used slot's handle to a managed object's member keeps the counting exact and every edge inside the heap, and the old target's count can be lowered |
| `Memory.Memory.AssignMember` | src/traced_ptr.h:42-48 | `dec_()` on the old target, the member written, `inc_()` on the new target: the heap becomes `MemberAssigned` |
| `SetArena.AssignedValid` | src/traced_ptr.h:42-48 | on a quiescent, exactly counted heap with closed edges, assigning a used slot's handle to a used object's member keeps the slots, the used slots, the exact counts, the closed edges and the absence of marks |
| `SetArena.SetSpace.AssignMember` | src/traced_ptr.h:42-48 | on a tracked object, given a tracked or null target, the space stays valid, with the tracked objects and the handles outside the heap unchanged |
| `Collection.HeapInvAfterAssign` | src/traced_ptr.h:42-48 | the same assignment keeps the heap invariant over all spaces |
| `LinkedList.NodeEdges` | test/linked_list.h:29-36 | a node's trace visits only its `rest_`, and assigning member `rest_` gives the node with the new `rest_` |
| `LinkedList.HandedOverAfter` | test/linked_list.h:41-45 | `make_traced` then the by-value `rest` destroyed: the outside handle on `rest` is replaced by one on the result, every earlier object survives, and a non-null result is a new object holding the node |
| `LinkedList.MakeFrom` | test/linked_list.h:41-45 | the space stays valid and the outside handles and objects change as `HandedOver` says, whether or not allocation fails |
| `LinkedList.Cons` | test/linked_list.h:41-45 | the same for a new `node` whose `rest_` holds `rest`'s target |
| `LinkedList.ConsStep` | test/linked_list.h:41-45 | `cons` onto a list held by one handle gives the list with the new node in front, held by one handle |
| `LinkedList.Push` | test/linked_list.h:41-45 | on success the space holds the longer list and the result is its head |
| `LinkedList.ListOfThree` | test/main.cpp:8 | a list of three holds exactly three distinct tracked nodes, linked in order, with one outside handle on the head |
| `LinkedList.BuildList` | test/main.cpp:8 | `cons(5, cons(6, cons(7, nullptr)))` from an empty space leaves exactly that three-node list, held by the result |
| `LinkedList.ListClosed` | test/main.cpp:9 | assigning the head to the last node's `rest_` turns the list into a cycle of three |
| `LinkedList.CloseCycle` | test/main.cpp:9 | after the assignment the space stays valid, the same three objects and one outside handle remain, and they form a cycle |
| `LinkedList.CycleReach` | test/main.cpp:9-10 | every node of the cycle is reachable from any one of them |
| `LinkedList.CycleSurvives` | test/main.cpp:10 | a collection from a handle on one node keeps all three nodes, still a cycle |
| `LinkedList.CollectLive` | test/main.cpp:10 | `collect()` while the head's handle lives keeps exactly the three nodes |
| `LinkedList.CycleInEdges` | test/main.cpp:9 | each node of a cycle of three has exactly one in-edge |
| `LinkedList.CycleCounts` | test/main.cpp:12 | with no outside handle left, each node of the cycle still has count 1, so counting alone never frees it |
| `LinkedList.CycleDropped` | test/main.cpp:12 | destroying the one outside handle leaves no handle, the same cycle, and count 1 on each node |
| `LinkedList.DropHead` | test/main.cpp:12 | destroying `c` leaves counts `[1, 1, 1]`, and the next collection frees all three nodes |
| `LinkedList.CollectCycle` | test/main.cpp:6-12 | the whole program: when every allocation succeeds the first collection keeps three nodes, each keeps count 1 once `c` is gone, and a second collection leaves nothing |

## Left out

- The system allocator is an oracle. `Memory.Memory.AllocatePage` returns fresh slots or null, and `std::allocator::deallocate` in the set-based space leaves the cell as an untracked free cell.
- A user type's constructor and destructor appear only as copying and releasing its handle members. Their other effects are not modelled.
- A constructor that allocates, and so may start a collection while its slot is half built, is not modelled. Construction is one step.
- `max_live_ratio` is a `double`. The model compares `4 * live > 3 * heap` over integers. With a heap of size 0 there is no growth, as the floating-point NaN comparison gives.
- Logging (`log(...)`, src/logger.h, src/logging.cpp) has no effect on state. It is not part of this model.
- The singletons (`Collector::instance()`, `Typed_space::instance()`, `GC_allocator::instance()`) are explicit objects passed as parameters. The model does not state that `instance()` returns one shared object.
- `C++` access control (the `friend` declaration in precisepp/Collector.h:31-32) is not modelled.
- Spaces are never unregistered, because the source has no operation for it.
- `Arena.Collector.Collect`: after a `bad_alloc` from some space's `add_page_`, the later spaces are not swept. The contract then states only the shared structure, memory validity and the kept pages, not the heap invariant.
- `Arena.Collector.Collect`: a collection with no registered spaces is covered only by the general contract. It is not stated separately that it changes nothing.
- `Arena.TypedSpace.Refill`: after a failed `add_page_` during a collection, readiness is not re-established.
- `HeapGraph.LowerRefs`: a `dec_` whose target is no longer a used slot changes nothing. In a sweep, a dead object's destructor can `dec_` a dead target freed earlier in the same sweep, as in any dead cycle. In src/TypedSpace.h:63-68 and 77-82 that decrements a count in memory already returned to the allocator, a write after free. In precisepp/Typed_space.h:165-170 and 240-247 it writes into the count bytes of a free slot (precisepp/Traced.h:43-48), which `initialize_used_` zeroes before they are read again. The model drops that write.
- `Memory.Memory.DecRef`: the same; a target that is not a used slot is left alone.
- `Memory.Memory.ReleaseEdges`: the same; only targets that are still used slots are lowered.
- `Memory.Memory.IncRef`: reference counts are unbounded. A 64-bit `size_t` would wrap only after 2^64 handles.
- `Memory.Memory.LowerRootCounts`: root counts are `int`. The `size_t` underflow cannot happen under the counting invariant (`Collection.RootsAreHeld`), so it is not modelled.
- `Memory.Memory.MarkRecursively`: the recursion depth, and so stack overflow, is not modelled.
- `SetArena.SetSpace.Sweep`: `sweep_` erases from `objects_` while iterating over it, which invalidates the iterator. The model iterates over a snapshot of the set taken first (`SetArena.SetSpace.Snapshot`).
- `SetArena.SetSpace.Allocate`: `allocator_.allocate` throwing `bad_alloc` is the null result.
- `BitmapAllocator.GcAllocator.Allocate`: requires a free cell, because the source ends in `assert(false)` when there is none.
- `BitmapAllocator.GcAllocator.Mark`: the index is taken relative to this allocator's own base. The source uses `instance()`'s, which is the same object when the allocator is the singleton.
- src/Typed_space.h:267 returns the singleton space by copy into `make_traced`. The model always uses the one space object.
- `Tracing.Trace`: a null `unique_ptr` or `shared_ptr` is excluded (`WellFormed`), because its trace rule dereferences it.
- The trace rule of a user record is supplied by the embedding program. A `Record` lists the members it visits.
- precisepp/Traceable.h:28-29 declares the flag as `contains_pointers_v`, while the fold at lines 37-42 reads `contains_pointers`. The model treats both as the one `ContainsPointers` flag.
- `count_map`'s 2^64 wrap-around is modelled in `CountMaps` only.
- The remaining files repeat or precede the modelled code: src/Collector.h (a copy of the set-based space, without the null check in `find_roots_`), src/GC_allocator.h, src/ptr.h, src/gc.h, src/Traceable.h, src/tracing.h, src/Space.h, src/Traced.h beyond its constructor, precisepp/stl/*.h and the `*_manager` files. They are not part of this model.
- Types are modelled already stripped of `const` and references. The dispatch at precisepp/Traceable.h:19-24 strips them before it looks up a type's rule, so each `Type` stands for all its qualified forms.
- src/traced_ptr.h:102-109 registers `traced_ptr` without declaring its `contains_pointers` flag, and `DEFINE_TRACEABLE` (src/Traceable.h:56-57) adds none. The model gives `HandleT` the flag `true`. A user type such as the example's `node` carries a flag of the embedding program's choosing (`UserT`), which its record trace does not consult.
- `SetArena.SetSpace.Collect`: the set-based space owns the whole heap. Its collector, shared with every other registered space (src/TypedSpace.h:48-52), is not modelled; the precisepp collector with several spaces is (`Arena.Collector.Collect`).
- `SetArena.SetSpace.AssignMember`: only a handle that is a direct member of a user record is assigned. A handle nested inside a container or pair member is not, and the object must be well formed.
- `LinkedList.CollectCycle`: `main` ends with `c` destroyed at the closing brace and no further collection. The model adds a second collection after that to show the cycle is then freed. The `int` in `first_` is not modelled, because no count or edge depends on it.

## Findings

| source | as written | input that shows it | evidently intended | confidence | as-written member | corrected member |
|---|---|---|---|---|---|---|
| src/util/count_map.h:33-43 | `set(key, 0)` on a present key stores a 0 instead of erasing, so a later `dec` wraps to 2^64-1 | `set(k, 1); set(k, 0); dec(k)` | storing 0 erases the key, as `dec` does when a count reaches 0; `dec` of the now-missing key returns 0 | not executed | `CountMaps.ZeroSetThenDecWraps` | `CountMaps.ZeroSetThenDecErased` |
| src/util/count_map.h:72-75 | `end()` returns `container_.begin()`, so every iteration is empty | any map after one `inc(k)` | `end()` returns `container_.end()` | not executed | `CountMaps.CountMap.EntriesAsWritten` | `CountMaps.CountMap.Entries` |
| src/traced_ptr.h:37-40 | the move constructor swaps with its own `ptr_`, which is never initialised, so the moved-from handle may hold a stray address | moving from a handle when the new handle's storage happens to hold the address of a used slot | the new handle starts null, so the moved-from handle ends up null | not executed | `Handles.MovedFromGarbageUncounted` | `Handles.MovedCounted` |
