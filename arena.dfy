/**
 * The per-type arena (`Typed_space<T>`) and the collector that drives the
 * four collection phases across every registered arena.
 *
 * A space owns a newest-first list of pages in the shared `Memory` and a
 * free list threaded through their free slots.  Its real fields are the
 * source's: `heapSize`, `liveSize`, `pagesHead`, `freeHead` and
 * `nextPageSize`; the page and free-list sequences they encode are ghost.
 */
module Arena {
  import opened Tracing
  import opened Slot
  import opened HeapGraph
  import opened Memory
  import opened PageLayout
  import opened Phases
  import opened Collection

  /** The first page size of the converged space and of the earlier one. */
  const InitialPageSize: nat := 1024
  const EarlyInitialPageSize: nat := 16

  /** What the object's constructor does when placement `new` runs it: it
      builds the object (copying the handles among its arguments into its
      members), or it throws. */
  datatype Construction = Builds(obj: Value) | Throws

  datatype Allocation = Allocated(addr: Addr) | BadAlloc | ConstructorThrew

  class TypedSpace {
    const mem: Memory
    const collector: Collector
    var heapSize: nat
    var liveSize: nat
    var pagesHead: Ref
    var freeHead: Ref
    var nextPageSize: nat
    ghost var pages: seq<Addr>
    ghost var sizes: seq<nat>
    ghost var free: seq<Addr>
    ghost const firstPageSize: nat

    ghost function View(): SpaceView
      reads this
    {
      SpaceView(pages, sizes, free, heapSize, liveSize, pagesHead, freeHead, nextPageSize, firstPageSize)
    }

    ghost predicate Inv()
      reads this, mem
    {
      SpaceInv(View(), mem.slots)
    }

    /** The constructor: no pages, an empty free list, a first page of
        1024 slots; the space registers itself with its collector, which
        stays valid.  The allocator it gets pages from is the collector's
        memory. */
    constructor(collector: Collector, allocator: Memory)
      requires collector.Valid() && collector.mem == allocator
      modifies collector
      ensures View() == EmptySpace(InitialPageSize)
      ensures this.collector == collector && mem == allocator
      ensures collector.spaces == old(collector.spaces) + [this]
      ensures Ready()
    {
      ghost var vs := collector.Views();
      mem := allocator;
      this.collector := collector;
      heapSize := 0;
      liveSize := 0;
      pagesHead := Null;
      freeHead := Null;
      nextPageSize := InitialPageSize;
      pages := [];
      sizes := [];
      free := [];
      firstPageSize := InitialPageSize;
      new;
      collector.Register(this);
      Registered(vs);
    }

    /** The constructor of the earlier space, the same but with a first
        page of 16 slots. */
    constructor Early(collector: Collector, allocator: Memory)
      requires collector.Valid() && collector.mem == allocator
      modifies collector
      ensures View() == EmptySpace(EarlyInitialPageSize)
      ensures this.collector == collector && mem == allocator
      ensures collector.spaces == old(collector.spaces) + [this]
      ensures Ready()
    {
      ghost var vs := collector.Views();
      mem := allocator;
      this.collector := collector;
      heapSize := 0;
      liveSize := 0;
      pagesHead := Null;
      freeHead := Null;
      nextPageSize := EarlyInitialPageSize;
      pages := [];
      sizes := [];
      free := [];
      firstPageSize := EarlyInitialPageSize;
      new;
      collector.Register(this);
      Registered(vs);
    }

    /** Registering this empty space after the spaces with views `vs`
        keeps the collector valid. */
    lemma Registered(vs: seq<SpaceView>)
      requires |collector.spaces| == |vs| + 1 && collector.spaces[|vs|] == this
      requires forall k :: 0 <= k < |vs| ==> collector.spaces[k] != this
      requires forall k :: 0 <= k < |vs| ==> collector.spaces[k].View() == vs[k]
      requires (forall k :: 0 <= k < |vs| ==> collector.spaces[k].mem == collector.mem) &&
               (forall k, l :: 0 <= k < l < |vs| ==> collector.spaces[k] != collector.spaces[l])
      requires collector.mem == mem && mem.Valid() && HeapInv(vs, mem.slots, mem.handles)
      requires View() == EmptySpace(firstPageSize) && firstPageSize >= 2
      ensures Ready()
    {
      RegisteredKeeps(vs, mem.slots, mem.handles, firstPageSize);
      forall k | 0 <= k < |collector.spaces| ensures collector.spaces[k].View() == (vs + [View()])[k] {
      }
      collector.ValidFrom(vs + [View()]);
    }

    /** `add_to_free_list_`: the slot becomes a free cell linked to the old
        head, and the new head. */
    method AddToFreeList(x: Addr)
      requires x in mem.slots
      modifies this`free, this`freeHead, mem`slots
      ensures mem.slots == old(mem.slots)[x := AsFree(old(mem.slots)[x], old(freeHead))]
      ensures free == [x] + old(free) && freeHead == At(x)
    {
      mem.InitializeFree(x, freeHead);
      freeHead := At(x);
      free := [x] + free;
    }

    /** `add_page_`: asks the allocator for `nextPageSize` slots; on null
        nothing changes (the source throws `bad_alloc`).  Otherwise slot 0
        becomes a header linked to the old page list, slots 1 to n - 1 are
        pushed on the free list in index order, the heap grows by n - 1 and
        the next page size doubles. */
    method AddPage() returns (ok: bool)
      requires Inv() && mem.Valid()
      modifies this, mem
      ensures mem.Valid() && mem.handles == old(mem.handles) && Inv()
      ensures !ok ==> View() == old(View()) && mem.slots == old(mem.slots) && mem.top == old(mem.top)
      ensures ok ==>
                old(nextPageSize) >= 2 &&
                View() == AddedPage(old(View()), old(mem.top)) &&
                mem.top == old(mem.top) + old(nextPageSize) &&
                PageWritten(old(mem.slots), mem.slots, old(mem.top), old(nextPageSize), old(pagesHead), old(freeHead))
    {
      ghost var v0 := View();
      ghost var m0 := mem.slots;
      ghost var b := mem.top;
      AddPageInvAt(v0, m0);
      ok := PlacePage();
      if ok {
        AddPageInv(v0, m0, mem.slots, b);
      }
    }

    /** The steps of `add_page_`, apart from the layout they keep. */
    method PlacePage() returns (ok: bool)
      requires nextPageSize >= 2 && freeHead == LinkTo(free, 0) && mem.Valid()
      modifies this, mem
      ensures mem.Valid() && mem.handles == old(mem.handles)
      ensures !ok ==> View() == old(View()) && mem.slots == old(mem.slots) && mem.top == old(mem.top)
      ensures ok ==>
                View() == AddedPage(old(View()), old(mem.top)) &&
                mem.top == old(mem.top) + old(nextPageSize) &&
                PageWritten(old(mem.slots), mem.slots, old(mem.top), old(nextPageSize), old(pagesHead), old(freeHead))
    {
      ghost var v0 := View();
      ghost var m0 := mem.slots;
      ghost var b := mem.top;
      var n := nextPageSize;
      var page := mem.AllocatePage(n);
      if page.Null? {
        return false;
      }
      ghost var m1 := mem.slots;
      mem.InitializeHeader(page.addr, n, pagesHead);
      ghost var m2 := mem.slots;
      PushPageSlots(page.addr, n);
      PageWrittenBySteps(m0, m1, m2, mem.slots, b, n, v0.pagesHead, v0.freeHead);
      pagesHead, pages, sizes := page, [b] + pages, [n] + sizes;
      heapSize, nextPageSize := heapSize + n - 1, 2 * n;
      ok := true;
      AddedPageFields(v0, b, View());
    }

    /** The loop of `add_page_`: slots 1 to n - 1 of the page at `b` go on
        the free list in index order, so the last one ends up at its head. */
    method PushPageSlots(b: Addr, n: nat)
      requires n >= 1 && freeHead == LinkTo(free, 0)
      requires forall a :: b < a < b + n ==> a in mem.slots
      modifies this`free, this`freeHead, mem`slots
      ensures mem.slots.Keys == old(mem.slots).Keys
      ensures forall a :: a in old(mem.slots) && !(b < a < b + n) ==> mem.slots[a] == old(mem.slots)[a]
      ensures CellsLinked(mem.slots, b, n, old(freeHead))
      ensures free == NewCells(b, n) + old(free) && freeHead == LinkTo(free, 0)
    {
      var i := 1;
      PushedNone(mem.slots, b, free);
      while i < n
        invariant 1 <= i <= n
        invariant CellsPushed(old(mem.slots), mem.slots, b, i, old(free), free, freeHead)
      {
        PushedStep(old(mem.slots), mem.slots, b, i, old(free), free, freeHead);
        AddToFreeList(b + i);
        i := i + 1;
      }
    }

    /** `deallocate_`: the object's destructor releases its handles, then
        the slot goes on the free list and `liveSize` drops by one.  (That
        the layout and, for a slot no outside handle holds, the counting
        are kept is `SweepOneKeeps`.) */
    method Deallocate(x: Addr)
      requires IsUsed(mem.slots, x) && Releasable(mem.slots, Edges(mem.slots[x].payload.obj)) && liveSize > 0
      modifies this`free, this`freeHead, this`liveSize, mem`slots
      ensures mem.slots == Deallocated(old(mem.slots), x, old(freeHead))
      ensures free == [x] + old(free) && freeHead == At(x) && liveSize == old(liveSize) - 1
    {
      mem.ReleaseEdges(Edges(mem.slots[x].payload.obj));
      AddToFreeList(x);
      liveSize := liveSize - 1;
    }

    /** `for_heap_`: walks the page list from the newest page and, within
        each page, slots 1 to size - 1 (slot 0 is the header, whose free bit
        is never written), handing on every slot whose free bit is clear. */
    method ForHeap() returns (visits: seq<Addr>)
      requires Inv()
      ensures visits == Visits(View(), mem.slots)
    {
      ghost var v := View();
      ghost var m := mem.slots;
      visits := [];
      var page := pagesHead;
      ghost var k := 0;
      while page != Null
        invariant mem.slots == m && View() == v
        invariant k <= |v.pages| && page == LinkTo(v.pages, k)
        invariant visits == UsedIn(m, HeapOrder(v.pages[..k], v.sizes[..k]))
        decreases |v.pages| - k
      {
        PageAt(v, m, k);
        PageInHeap(v, m, k);
        var base := page.addr;
        var here := WalkPage(base, mem.slots[base].payload.pageSize);
        UsedInAppend(m, HeapOrder(v.pages[..k], v.sizes[..k]), PageSlots(base, v.sizes[k]));
        HeapOrderPrefix(v.pages, v.sizes, k);
        visits := visits + here;
        page := mem.slots[base].payload.nextPage;
        k := k + 1;
      }
      assert v.pages[..k] == v.pages && v.sizes[..k] == v.sizes;
    }

    /** The inner loop of `for_heap_` over the page at `base`: slots 1 to size - 1 in
        index order, those whose free bit is clear. */
    method WalkPage(base: Addr, size: nat) returns (visits: seq<Addr>)
      requires size >= 1 && forall a :: base < a < base + size ==> a in mem.slots
      ensures visits == UsedIn(mem.slots, PageSlots(base, size))
    {
      ghost var m := mem.slots;
      visits := [];
      var i := 1;
      while i < size
        invariant 1 <= i <= size
        invariant visits == UsedIn(m, PageSlots(base, i))
        invariant mem.slots == m
      {
        PageSlotsSnoc(base, i);
        UsedInSnoc(m, PageSlots(base, i), base + i);
        if !mem.slots[base + i].free {
          visits := visits + [base + i];
        }
        i := i + 1;
      }
    }

    // ----- the four collection phases -----

    /** Phase 1, `save_counts`: every used slot of the space gets its
        reference count as its root count. */
    method SaveCounts()
      requires Inv()
      modifies mem`slots
      ensures mem.slots == HeapGraph.SaveCounts(old(mem.slots), UsedSet(View()))
    {
      var visits := ForHeap();
      VisitsFacts(View(), mem.slots);
      SaveCountsOf(mem, visits);
    }

    /** Phase 2, `find_roots`: every non-null edge out of a used slot of
        the space lowers its target's root count by one.  Edges lead to
        used slots only. */
    method FindRoots()
      requires Inv() && EdgesClosed(GraphOf(mem.slots))
      modifies mem`slots
      ensures mem.slots == LowerRoots(old(mem.slots), InEdges(GraphOf(old(mem.slots)), UsedSet(View())))
    {
      var visits := ForHeap();
      VisitsFacts(View(), mem.slots);
      LoweredAll(mem.slots, visits);
      FindRootsOf(mem, visits);
    }

    /** Phase 3, `mark`: a depth-first search from every used slot of the
        space whose root count is positive. */
    method Mark()
      requires Inv() && EdgesClosed(GraphOf(mem.slots))
      modifies mem`slots
      ensures MarkedFromSet(old(mem.slots), mem.slots, RootsAmong(old(mem.slots), UsedSet(View())))
    {
      var visits := ForHeap();
      VisitsFacts(View(), mem.slots);
      MarkFrom(mem, visits);
    }

    /** Phase 4, `sweep`: every unmarked used slot of the space is
        deallocated and every marked one has its mark cleared; then, when
        more than three quarters of the slots are live, a page is added.
        The unmarked slots must be held by no handle outside the heap.
        When the page cannot be had (`ok` false; the source throws
        `bad_alloc` here) the sweep itself is complete. */
    method Sweep() returns (ok: bool)
      requires Inv() && mem.Valid() && Counted(mem.slots, mem.handles)
      requires forall a :: a in UsedSet(View()) ==> a in mem.slots && (!mem.slots[a].mark ==> mem.handles[a] == 0)
      modifies this, mem
      ensures mem.handles == old(mem.handles)
      ensures Inv() && mem.Valid() && Counted(mem.slots, mem.handles)
      ensures Swept(old(mem.slots), mem.slots, old(UsedSet(View())))
      ensures UsedSet(View()) == old(UsedSet(View())) - Dead(old(mem.slots), old(UsedSet(View())))
      ensures forall a :: a in Dom(View()) ==> a in old(Dom(View())) || a !in old(mem.slots)
      ensures |pages| >= old(|pages|)
      ensures ok ==> (pages != [] ==> free != [])
    {
      SweepUsed();
      ghost var m1 := mem.slots;
      ok := GrowIfFull();
      SweptGrown(old(mem.slots), m1, mem.slots, old(UsedSet(View())));
      GainedSlots(m1, mem.slots, mem.handles);
    }

    /** The part of `sweep` before the growth check. */
    method SweepUsed()
      requires Inv() && mem.Valid() && Counted(mem.slots, mem.handles)
      requires forall a :: a in UsedSet(View()) ==> a in mem.slots && (!mem.slots[a].mark ==> mem.handles[a] == 0)
      modifies this`free, this`freeHead, this`liveSize, mem`slots
      ensures Inv() && Counted(mem.slots, mem.handles)
      ensures Swept(old(mem.slots), mem.slots, old(UsedSet(View())))
      ensures UsedSet(View()) == old(UsedSet(View())) - Dead(old(mem.slots), old(UsedSet(View())))
      ensures Dom(View()) == old(Dom(View())) && mem.slots.Keys == old(mem.slots).Keys
      ensures pages == old(pages)
    {
      var visits := ForHeap();
      SweepReady(View(), mem.slots, mem.handles, visits);
      SweepStepsReady(View(), mem.slots, mem.handles, visits);
      SweptAll(View(), mem.slots, mem.handles, visits);
      SweepSlots(visits);
    }

    /** The loop of `sweep`, over the visit list taken before it starts;
        freeing a slot changes no later slot's free bit, so this is the
        walk the source makes. */
    method SweepSlots(visits: seq<Addr>)
      requires forall j :: 0 <= j < |visits| ==> StepReady(SweptTo(View(), mem.slots, visits, j), visits[j])
      modifies this`free, this`freeHead, this`liveSize, mem`slots
      ensures Sweeping(View(), mem.slots) == SweptTo(old(View()), old(mem.slots), visits, |visits|)
    {
      ghost var v0 := View();
      ghost var m0 := mem.slots;
      var j := 0;
      while j < |visits|
        invariant j <= |visits|
        invariant Sweeping(View(), mem.slots) == SweptTo(v0, m0, visits, j)
      {
        SweepSlot(visits[j]);
        j := j + 1;
      }
    }

    /** One slot of `sweep`: a survivor's mark is cleared; any other slot
        is deallocated (`deallocate_`). */
    method SweepSlot(x: Addr)
      requires StepReady(Sweeping(View(), mem.slots), x)
      modifies this`free, this`freeHead, this`liveSize, mem`slots
      ensures Sweeping(View(), mem.slots) == SweepOne(old(Sweeping(View(), mem.slots)), x)
    {
      if mem.slots[x].mark {
        mem.ClearMark(x);
      } else {
        ghost var v := View();
        Deallocate(x);
        PushedFields(v, x, View());
      }
    }

    /** The end of `sweep`: a page is added when more than three quarters
        of the slots are live.  Afterwards a space with pages has a free
        slot, unless the page could not be had. */
    method GrowIfFull() returns (ok: bool)
      requires Inv() && mem.Valid()
      modifies this, mem
      ensures mem.Valid() && mem.handles == old(mem.handles) && Inv()
      ensures Extends(old(mem.slots), mem.slots)
      ensures UsedSet(View()) == old(UsedSet(View()))
      ensures forall a :: a in Dom(View()) ==> a in old(Dom(View())) || a !in old(mem.slots)
      ensures |pages| >= old(|pages|)
      ensures ok ==> (pages != [] ==> free != [])
    {
      ok := true;
      if 4 * liveSize > 3 * heapSize {
        ok := Grow();
      } else if pages != [] {
        RoomAfterSweep(View(), mem.slots);
      }
    }

    /** `add_page_` seen from outside the space: the memory only grows, no
        slot changes use, and a page that was had brings a free slot. */
    method Grow() returns (ok: bool)
      requires Inv() && mem.Valid()
      modifies this, mem
      ensures mem.Valid() && mem.handles == old(mem.handles) && Inv()
      ensures Extends(old(mem.slots), mem.slots)
      ensures UsedSet(View()) == old(UsedSet(View()))
      ensures forall a :: a in Dom(View()) ==> a in old(Dom(View())) || a !in old(mem.slots)
      ensures |pages| >= old(|pages|)
      ensures ok ==> pages != [] && free != []
    {
      ghost var v1 := View();
      ghost var m1 := mem.slots;
      ok := AddPage();
      if ok {
        AddPageInv(v1, m1, mem.slots, old(mem.top));
        PageWrittenExtends(m1, mem.slots, old(mem.top), v1.nextPageSize, v1.pagesHead, v1.freeHead);
        RoomInAddedPage(v1, old(mem.top));
      }
    }

    // ----- allocation -----

    /** The space is registered with a collector over the same memory, and
        the collector's invariant holds. */
    ghost predicate Ready()
      reads this, collector, collector.spaces, collector.mem, mem
    {
      collector.mem == mem && this in collector.spaces && collector.Valid()
    }

    lemma ReadyInv()
      requires Ready()
      ensures Inv() && mem.Valid()
      ensures pagesHead == Null <==> pages == []
      ensures freeHead == Null <==> free == []
    {
      var k :| 0 <= k < |collector.spaces| && collector.spaces[k] == this;
      assert collector.Views()[k] == View();
    }

    /** `allocate_` on a space with no page yet: `add_page_`.  Nothing
        changes use, and on success the free list is not empty. */
    method FirstPage() returns (ok: bool)
      requires Ready() && pages == []
      modifies this, mem
      ensures Ready() && mem.handles == old(mem.handles)
      ensures Extends(old(mem.slots), mem.slots)
      ensures ok ==> free != []
    {
      ReadyInv();
      ghost var vs := collector.Views();
      ghost var k :| 0 <= k < |collector.spaces| && collector.spaces[k] == this;
      ghost var m := mem.slots;
      ok := Grow();
      GrewKeeps(vs, m, mem.handles, k, View(), mem.slots);
      forall j | 0 <= j < |collector.spaces| && j != k ensures collector.spaces[j].View() == vs[j] {
        assert collector.spaces[j] != this;
      }
      collector.ViewsAreUpdate(vs, k, View());
      collector.ValidFrom(vs[k := View()]);
    }

    /** The refill at the top of `allocate_` when the free list is empty:
        the first page if the space has none, a collection otherwise.  `ok`
        is false where the source throws `bad_alloc`; the collector's
        invariant is then only kept on the first-page path. */
    method Refill() returns (ok: bool)
      requires Ready() && free == []
      modifies this, mem, collector.spaces
      ensures mem.handles == old(mem.handles)
      ensures ok || old(pages) == [] ==> Ready()
      ensures ok ==> free != []
      ensures ok ==> Reach(GraphOf(old(mem.slots)), Held(mem.handles)) <= UsedAddrs(mem.slots)
      ensures ok ==> Survives(old(mem.slots), mem.slots, UsedAddrs(mem.slots))
    {
      ReadyInv();
      if pagesHead == Null {
        ok := FirstPage();
        ReachSubgraph(GraphOf(old(mem.slots)), Held(mem.handles));
      } else {
        ghost var vs := collector.Views();
        ghost var k :| 0 <= k < |collector.spaces| && collector.spaces[k] == this;
        ok := collector.Collect();
        assert collector.Views()[k] == View();
      }
    }

    /** `allocate_` once the free list is not empty, with a constructor that
        returns: the head of the free list becomes a used slot holding the
        new object, which no handle holds yet. */
    method TakeSlot(obj: Value) returns (d: Addr)
      requires Ready() && free != []
      requires forall a :: a in Targets(Edges(obj)) ==> a in mem.handles
      modifies this, mem
      ensures Ready() && mem.handles == old(mem.handles)
      ensures d == old(free[0]) && d in UsedSet(View()) && liveSize == old(liveSize) + 1
      ensures Took(old(mem.slots), mem.slots, d, obj)
    {
      ghost var vs := collector.Views();
      ghost var k :| 0 <= k < |collector.spaces| && collector.spaces[k] == this;
      ghost var ws;
      d, ws := BuildAt(obj, vs, k);
      collector.ValidFrom(ws);
    }

    /** `TakeSlot` against the views `vs` of all spaces, this one `vs[k]`. */
    method BuildAt(obj: Value, ghost vs: seq<SpaceView>, ghost k: nat) returns (d: Addr, ghost ws: seq<SpaceView>)
      requires k < |vs| && collector.ViewsAre(vs) && collector.spaces[k] == this && collector.Shared()
      requires mem.Valid()
      requires HeapInv(vs, mem.slots, mem.handles) && free != []
      requires forall a :: a in Targets(Edges(obj)) ==> a in mem.handles
      modifies this`freeHead, this`free, this`liveSize, mem`slots
      ensures collector.ViewsAre(ws) && HeapInv(ws, mem.slots, mem.handles)
      ensures collector.Shared() && mem.Valid()
      ensures mem.handles == old(mem.handles) && collector.spaces == old(collector.spaces)
      ensures d == old(free[0]) && d in UsedSet(View()) && liveSize == old(liveSize) + 1
      ensures Took(old(mem.slots), mem.slots, d, obj)
    {
      ghost var m := mem.slots;
      assert vs[k] == View() && SpaceInv(vs[k], m);
      FreeHead(vs[k], m);
      d := Build(obj);
      FilledKeeps(vs, m, mem.handles, k, obj, LeftoverRootCount(m[d]));
      forall j | 0 <= j < |collector.spaces| && j != k ensures collector.spaces[j].View() == vs[j] {
        assert collector.spaces[j] != this;
      }
      collector.ViewsAreUpdate(vs, k, View());
      ws := vs[k := View()];
    }

    /** `allocate_` once the free list is not empty, with a constructor that
        throws: the slot goes back on the free list and the space is as it
        was. */
    method TakeSlotThrows()
      requires Ready() && free != []
      modifies this, mem
      ensures Ready() && mem.handles == old(mem.handles) && View() == old(View())
      ensures UsedAddrs(mem.slots) == old(UsedAddrs(mem.slots))
      ensures forall a :: IsUsed(old(mem.slots), a) ==> mem.slots[a] == old(mem.slots)[a]
    {
      ghost var vs := collector.Views();
      ghost var k :| 0 <= k < |collector.spaces| && collector.spaces[k] == this;
      ThrowsAt(vs, k);
      collector.ValidFrom(vs);
    }

    /** `TakeSlotThrows` against the views `vs` of all spaces, this one `vs[k]`. */
    method ThrowsAt(ghost vs: seq<SpaceView>, ghost k: nat)
      requires k < |vs| && collector.ViewsAre(vs) && collector.spaces[k] == this && collector.Shared()
      requires mem.Valid() && HeapInv(vs, mem.slots, mem.handles) && free != []
      modifies this`freeHead, this`free, mem`slots
      ensures collector.ViewsAre(vs) && HeapInv(vs, mem.slots, mem.handles) && View() == old(View())
      ensures collector.Shared() && mem.Valid()
      ensures mem.handles == old(mem.handles) && collector.spaces == old(collector.spaces)
      ensures UsedAddrs(mem.slots) == old(UsedAddrs(mem.slots))
      ensures forall a :: IsUsed(old(mem.slots), a) ==> mem.slots[a] == old(mem.slots)[a]
    {
      ghost var m := mem.slots;
      assert vs[k] == View() && SpaceInv(vs[k], m);
      FreeHead(vs[k], m);
      BuildThrows();
      ThrewKeeps(vs, m, mem.handles, k);
      forall j | 0 <= j < |collector.spaces| && j != k ensures collector.spaces[j].View() == vs[j] {
        assert collector.spaces[j] != this;
      }
    }

    /** `allocate_`: takes the head of the free list, refilling the list
        first when it is empty.  `BadAlloc` is a `bad_alloc` out of
        `add_page_`, directly or from the collection's sweep;
        `ConstructorThrew` is the constructor's exception, rethrown.  The
        new object's slot was not reachable before, every reachable object
        is still there, and no other object appears. */
    method AllocateSlot(c: Construction) returns (r: Allocation)
      requires Ready()
      requires c.Builds? ==> forall a :: a in Targets(Edges(c.obj)) ==> a in mem.handles
      modifies this, mem, collector.spaces
      ensures mem.handles == old(mem.handles)
      ensures !r.BadAlloc? || old(pages) == [] ==> Ready()
      ensures r.BadAlloc? ==> old(free) == []
      ensures Taken(c, r, old(mem.slots), mem.handles, mem.slots)
      ensures r.Allocated? ==> r.addr in UsedSet(View())
      ensures old(free) != [] ==> Survives(old(mem.slots), mem.slots, old(UsedAddrs(mem.slots)))
    {
      ReadyInv();
      ghost var m0 := mem.slots;
      ghost var h := mem.handles;
      if freeHead == Null {
        var ok := Refill();
        if !ok {
          return BadAlloc;
        }
      } else {
        ReachSubgraph(GraphOf(m0), Held(h));
        SurvivesSelf(m0, UsedAddrs(m0));
      }
      r := Place(c, m0);
    }

    /** `AllocateSlot` once the free list is not empty; `m0` is the memory
        before any refill. */
    method Place(c: Construction, ghost m0: Heap) returns (r: Allocation)
      requires Ready() && free != []
      requires Reach(GraphOf(m0), Held(mem.handles)) <= UsedAddrs(mem.slots)
      requires Survives(m0, mem.slots, UsedAddrs(mem.slots))
      requires c.Builds? ==> forall a :: a in Targets(Edges(c.obj)) ==> a in mem.handles
      modifies this, mem
      ensures Ready() && mem.handles == old(mem.handles) && !r.BadAlloc?
      ensures Taken(c, r, m0, mem.handles, mem.slots)
      ensures r.Allocated? ==> r.addr in UsedSet(View())
      ensures old(UsedAddrs(mem.slots)) == UsedAddrs(m0) ==> Survives(m0, mem.slots, UsedAddrs(m0))
    {
      ghost var m1 := mem.slots;
      match c
      case Builds(obj) =>
        var d := TakeSlot(obj);
        r := Allocated(d);
        TookChain(m0, m1, mem.slots, mem.handles, d, obj);
      case Throws =>
        TakeSlotThrows();
        r := ConstructorThrew;
        ThrewChain(m0, m1, mem.slots, mem.handles);
    }

    /** `allocate`: `allocate_`, after which the returned `traced_ptr` takes
        hold of the new object (`inc_`), one handle more outside the heap.
        The object then has exactly that one handle on it. */
    method Allocate(c: Construction) returns (r: Allocation)
      requires Ready()
      requires c.Builds? ==> forall a :: a in Targets(Edges(c.obj)) ==> a in mem.handles
      modifies this, mem, collector.spaces
      ensures !r.BadAlloc? || old(pages) == [] ==> Ready()
      ensures Delivered(c, r, old(mem.slots), old(mem.handles), mem.slots, mem.handles)
    {
      ghost var m0 := mem.slots;
      ghost var h0 := mem.handles;
      r := AllocateSlot(c);
      ghost var m1 := mem.slots;
      if r.Allocated? {
        HoldNew(r.addr);
      }
      DeliveredAfterTaken(c, r, m0, h0, m1, mem.slots, mem.handles);
    }

    /** The `inc_` of `allocate` on the slot `a`, with the collector's
        invariant kept. */
    method HoldNew(a: Addr)
      requires Ready() && IsUsed(mem.slots, a)
      modifies mem`slots, mem`handles
      ensures Ready() && mem.handles == old(mem.handles) + multiset{a}
      ensures UsedAddrs(mem.slots) == old(UsedAddrs(mem.slots))
      ensures Survives(old(mem.slots), mem.slots, old(UsedAddrs(mem.slots)))
      ensures mem.slots[a].payload.refCount == old(mem.slots)[a].payload.refCount + 1
    {
      ghost var vs := collector.Views();
      HoldAt(a, vs);
      collector.ValidFrom(vs);
    }

    /** `HoldNew` against the views `vs` of all spaces. */
    method HoldAt(a: Addr, ghost vs: seq<SpaceView>)
      requires collector.ViewsAre(vs) && collector.Shared() && mem.Valid()
      requires HeapInv(vs, mem.slots, mem.handles) && IsUsed(mem.slots, a)
      modifies mem`slots, mem`handles
      ensures collector.ViewsAre(vs) && HeapInv(vs, mem.slots, mem.handles)
      ensures collector.Shared() && mem.Valid() && collector.spaces == old(collector.spaces)
      ensures mem.handles == old(mem.handles) + multiset{a}
      ensures UsedAddrs(mem.slots) == old(UsedAddrs(mem.slots))
      ensures Survives(old(mem.slots), mem.slots, old(UsedAddrs(mem.slots)))
      ensures mem.slots[a].payload.refCount == old(mem.slots)[a].payload.refCount + 1
    {
      HeldKeeps(vs, mem.slots, mem.handles, a);
      HoldFrame(a, vs);
    }

    /** `mem.Hold(a)` leaves the spaces as they were. */
    method HoldFrame(a: Addr, ghost vs: seq<SpaceView>)
      requires collector.ViewsAre(vs) && collector.Shared() && mem.Valid()
      modifies mem`slots, mem`handles
      ensures collector.ViewsAre(vs) && collector.Shared() && mem.Valid() && collector.spaces == old(collector.spaces)
      ensures mem.handles == old(mem.handles) + multiset{a}
      ensures mem.slots == RaiseRefs(old(mem.slots), Targets([At(a)]))
    {
      mem.Hold(a);
    }

    /** The head of the free list is a free cell linked to the rest. */
    ghost predicate HeadFree()
      reads this, mem
    {
      free != [] && freeHead == At(free[0]) && free[0] in mem.slots &&
      mem.slots[free[0]] == Slot(FreeLink(LinkTo(free, 1)), true, mem.slots[free[0]].mark)
    }

    /** `allocate_` with a constructor that returns: the slot is popped, the
        object built in it, and `liveSize` counts it. */
    method Build(obj: Value) returns (d: Addr)
      requires HeadFree() && mem.Valid()
      modifies this`freeHead, this`free, this`liveSize, mem`slots
      ensures mem.Valid()
      ensures d == old(free[0]) && View() == Popped(old(View()))
      ensures mem.slots == Filled(old(mem.slots), d, obj, LeftoverRootCount(old(mem.slots)[d]))
    {
      ghost var m := mem.slots;
      d := PopFree();
      mem.Construct(d, obj);
      liveSize := liveSize + 1;
      ConstructedIs(m, d, obj);
    }

    /** `allocate_` with a constructor that throws: the slot is popped and
        pushed back, which leaves it as it was with its mark cleared. */
    method BuildThrows()
      requires HeadFree() && mem.Valid()
      modifies this`freeHead, this`free, mem`slots
      ensures View() == old(View()) && mem.Valid()
      ensures mem.slots == old(mem.slots)[old(free[0]) := WithMark(old(mem.slots)[old(free[0])], false)]
    {
      var d := PopFree();
      AddToFreeList(d);
    }

    /** The pop of `allocate_`: the head of the free list is unlinked and
        `initialize_used_` runs on it. */
    method PopFree() returns (d: Addr)
      requires HeadFree()
      modifies this`freeHead, this`free, mem`slots
      ensures d == old(free[0]) && free == old(free[1..]) && freeHead == LinkTo(old(free), 1)
      ensures mem.slots == old(mem.slots)[d := AsUsed(LeftoverObject(old(mem.slots)[d]), LeftoverRootCount(old(mem.slots)[d]))]
    {
      d := freeHead.addr;
      freeHead := mem.slots[d].payload.nextFree;
      free := free[1..];
      mem.InitializeUsed(d);
    }

    /** `total_slots`: the capacity in objects, free and used. */
    function TotalSlots(): (n: nat)
      reads this, mem
      requires Inv()
      ensures n == SlotsOf(sizes) && n == |free| + |UsedSet(View())|
    {
      heapSize
    }

    /** `used_slots`: the number of used slots. */
    function UsedSlots(): (n: nat)
      reads this, mem
      requires Inv()
      ensures n == |UsedSet(View())| && n <= SlotsOf(sizes)
    {
      liveSize
    }
  }

  /** Before `add_page_`: the next page has at least two slots. */
  lemma AddPageInvAt(v: SpaceView, m: Heap)
    requires SpaceInv(v, m)
    ensures v.nextPageSize >= 2
  {
    PageSizeAtLeast(v.firstPageSize, |v.pages|);
  }

  /** `m` is `m0` with the slot `d`, which was not in use, now holding
      `obj` with no handle on it yet; every object of `m0` is still there. */
  ghost predicate Took(m0: Heap, m: Heap, d: Addr, obj: Value)
  {
    !IsUsed(m0, d) && IsUsed(m, d) && m[d].payload.obj == obj && m[d].payload.refCount == 0 &&
    UsedAddrs(m) == UsedAddrs(m0) + {d} && Survives(m0, m, UsedAddrs(m0))
  }

  /** Every address of `s` is a used slot in both `m0` and `m`, holding the
      same object. */
  ghost predicate Survives(m0: Heap, m: Heap, s: set<Addr>)
  {
    forall a :: a in s ==> IsUsed(m0, a) && IsUsed(m, a) && m[a].payload.obj == m0[a].payload.obj
  }

  lemma SurvivesSelf(m: Heap, s: set<Addr>)
    requires s <= UsedAddrs(m)
    ensures Survives(m, m, s)
  {
  }

  lemma SurvivesThen(m0: Heap, m1: Heap, m2: Heap, s: set<Addr>, t: set<Addr>)
    requires Survives(m0, m1, s) && Survives(m1, m2, t) && s <= t
    ensures Survives(m0, m2, s)
  {
  }

  /** The slots `allocate_` added: the new object's, if any. */
  function NewSlots(r: Allocation): (s: set<Addr>)
    ensures r.Allocated? ==> r.addr in s && |s| == 1
    ensures !r.Allocated? ==> s == {}
  {
    if r.Allocated? then {r.addr} else {}
  }

  /** What `allocate_` promises, from the memory `m0` with the handles `h`
      outside the heap to the memory `m`: the outcome matches the
      constructor; a new object is in a slot that was not reachable, holds
      the constructed value and has no handle yet; every object reachable
      before is still there, and every other object was there before. */
  ghost predicate Taken(c: Construction, r: Allocation, m0: Heap, h: multiset<Addr>, m: Heap)
  {
    (r.ConstructorThrew? ==> c.Throws?) && (!r.BadAlloc? ==> (r.Allocated? <==> c.Builds?)) &&
    (r.Allocated? ==>
       IsUsed(m, r.addr) && m[r.addr].payload.obj == c.obj && m[r.addr].payload.refCount == 0 &&
       r.addr !in Reach(GraphOf(m0), Held(h))) &&
    (!r.BadAlloc? ==>
       Survives(m0, m, Reach(GraphOf(m0), Held(h))) && Survives(m0, m, UsedAddrs(m) - NewSlots(r)))
  }

  /** What `allocate` promises: as `Taken`, and the returned handle is one
      more handle outside the heap, the only one on the new object. */
  ghost predicate Delivered(c: Construction, r: Allocation, m0: Heap, h0: multiset<Addr>, m: Heap, h: multiset<Addr>)
  {
    (r.ConstructorThrew? ==> c.Throws?) && (!r.BadAlloc? ==> (r.Allocated? <==> c.Builds?)) &&
    (r.Allocated? ==>
       h == h0 + multiset{r.addr} &&
       IsUsed(m, r.addr) && m[r.addr].payload.obj == c.obj && m[r.addr].payload.refCount == 1 &&
       r.addr !in Reach(GraphOf(m0), Held(h0))) &&
    (!r.Allocated? ==> h == h0) &&
    (!r.BadAlloc? ==> Survives(m0, m, Reach(GraphOf(m0), Held(h0))))
  }

  /** Refilling (`m0` to `m1`) and then building in the slot `d`. */
  lemma TookChain(m0: Heap, m1: Heap, m: Heap, h: multiset<Addr>, d: Addr, obj: Value)
    requires Reach(GraphOf(m0), Held(h)) <= UsedAddrs(m1) && Survives(m0, m1, UsedAddrs(m1))
    requires Took(m1, m, d, obj)
    ensures Taken(Builds(obj), Allocated(d), m0, h, m)
    ensures UsedAddrs(m1) == UsedAddrs(m0) ==> Survives(m0, m, UsedAddrs(m0))
  {
    assert UsedAddrs(m) - NewSlots(Allocated(d)) == UsedAddrs(m1);
  }

  /** Refilling (`m0` to `m1`) and then a constructor that throws. */
  lemma ThrewChain(m0: Heap, m1: Heap, m: Heap, h: multiset<Addr>)
    requires Reach(GraphOf(m0), Held(h)) <= UsedAddrs(m1) && Survives(m0, m1, UsedAddrs(m1))
    requires UsedAddrs(m) == UsedAddrs(m1) && forall a :: IsUsed(m1, a) ==> m[a] == m1[a]
    ensures Taken(Throws, ConstructorThrew, m0, h, m)
    ensures UsedAddrs(m1) == UsedAddrs(m0) ==> Survives(m0, m, UsedAddrs(m0))
  {
  }

  /** `allocate_` (`m0` to `m1`) and then the `inc_` of the returned handle. */
  lemma DeliveredAfterTaken(c: Construction, r: Allocation, m0: Heap, h0: multiset<Addr>, m1: Heap, m: Heap, h: multiset<Addr>)
    requires Taken(c, r, m0, h0, m1)
    requires r.Allocated? ==>
               h == h0 + multiset{r.addr} && UsedAddrs(m) == UsedAddrs(m1) &&
               Survives(m1, m, UsedAddrs(m1)) && m[r.addr].payload.refCount == m1[r.addr].payload.refCount + 1
    requires !r.Allocated? ==> m == m1 && h == h0
    ensures Delivered(c, r, m0, h0, m, h)
  {
    if r.Allocated? {
      SurvivesThen(m0, m1, m, Reach(GraphOf(m0), Held(h0)), UsedAddrs(m1));
    }
  }

  /** `initialize_used_` followed by placement `new` fills the free slot. */
  lemma ConstructedIs(m: Heap, d: Addr, obj: Value)
    requires d in m
    ensures var m1 := m[d := AsUsed(LeftoverObject(m[d]), LeftoverRootCount(m[d]))];
            RaiseRefs(m1[d := m1[d].(payload := m1[d].payload.(obj := obj))], Targets(Edges(obj))) ==
            Filled(m, d, obj, LeftoverRootCount(m[d]))
  {
    var m1 := m[d := AsUsed(LeftoverObject(m[d]), LeftoverRootCount(m[d]))];
    assert m1[d := m1[d].(payload := m1[d].payload.(obj := obj))] == m[d := AsUsed(obj, LeftoverRootCount(m[d]))];
  }

  /** A view whose fields are those `deallocate_` leaves is `Pushed`. */
  lemma PushedFields(v: SpaceView, x: Addr, v': SpaceView)
    requires v.liveSize > 0
    requires v'.free == [x] + v.free && v'.freeHead == At(x) && v'.liveSize == v.liveSize - 1
    requires v'.pages == v.pages && v'.sizes == v.sizes && v'.heapSize == v.heapSize
    requires v'.pagesHead == v.pagesHead && v'.nextPageSize == v.nextPageSize
    requires v'.firstPageSize == v.firstPageSize
    ensures v' == Pushed(v, x)
  {
  }

  /** `Collector`: the registry of spaces, and `collect`, which runs each
      phase on every space before the next phase starts anywhere. */
  class Collector {
    var spaces: seq<TypedSpace>
    ghost const mem: Memory

    /** The registered spaces' views, in registration order. */
    ghost function Views(): (vs: seq<SpaceView>)
      reads this, spaces
      ensures |vs| == |spaces| && forall k :: 0 <= k < |spaces| ==> vs[k] == spaces[k].View()
    {
      seq(|spaces|, k requires 0 <= k < |spaces| reads this, spaces => spaces[k].View())
    }

    /** Every space allocates in the collector's memory, and none is
        registered twice. */
    ghost predicate Shared()
      reads this
    {
      (forall k :: 0 <= k < |spaces| ==> spaces[k].mem == mem) &&
      (forall k, l :: 0 <= k < l < |spaces| ==> spaces[k] != spaces[l])
    }

    ghost predicate Valid()
      reads this, spaces, mem
    {
      Shared() && mem.Valid() && HeapInv(Views(), mem.slots, mem.handles)
    }

    constructor(mem: Memory)
      ensures spaces == [] && this.mem == mem
    {
      spaces := [];
      this.mem := mem;
    }

    /** `register_space`: appends, and nothing else. */
    method Register(s: TypedSpace)
      modifies this
      ensures spaces == old(spaces) + [s]
    {
      spaces := spaces + [s];
    }

    /** The views `vs` are the registered spaces' views. */
    ghost predicate ViewsAre(vs: seq<SpaceView>)
      reads this, spaces
    {
      |vs| == |spaces| && forall k :: 0 <= k < |spaces| ==> spaces[k].View() == vs[k]
    }

    lemma ViewsAreViews(vs: seq<SpaceView>)
      requires ViewsAre(vs)
      ensures Views() == vs
    {
    }

    /** The views after one space changed: `vs` with that one replaced. */
    lemma ViewsAreUpdate(vs: seq<SpaceView>, k: nat, v: SpaceView)
      requires |vs| == |spaces| && k < |vs| && spaces[k].View() == v
      requires forall j :: 0 <= j < |spaces| && j != k ==> spaces[j].View() == vs[j]
      ensures ViewsAre(vs[k := v])
    {
    }

    lemma ValidFrom(vs: seq<SpaceView>)
      requires Shared() && mem.Valid() && ViewsAre(vs) && HeapInv(vs, mem.slots, mem.handles)
      ensures Valid()
    {
      ViewsAreViews(vs);
    }

    /** `collect`: the four phases, each over every space in registration
        order.  Afterwards exactly the slots reachable from the handles
        outside the heap are used, each with its object, and every space
        that has a page has a free slot.  When a sweep cannot get the page
        it wants (`ok` false; the source throws `bad_alloc` out of
        `collect`), the later spaces are not swept. */
    method Collect() returns (ok: bool)
      requires Valid()
      modifies spaces, mem
      ensures Shared() && mem.Valid() && mem.handles == old(mem.handles)
      ensures ok ==> Valid()
      ensures ok ==> UsedAddrs(mem.slots) == Reach(GraphOf(old(mem.slots)), Held(mem.handles))
      ensures ok ==> forall a :: IsUsed(mem.slots, a) ==> IsUsed(old(mem.slots), a) && mem.slots[a].payload.obj == old(mem.slots)[a].payload.obj
      ensures ok ==> HasFree(Views(), |spaces|)
      ensures PagesKept(old(Views()), Views())
    {
      ghost var ws;
      ok, ws := CollectViews(Views());
      ViewsAreViews(ws);
    }

    /** `collect` on the spaces whose views are `vs`; `ws` are their views
        afterwards. */
    method CollectViews(ghost vs: seq<SpaceView>) returns (ok: bool, ghost ws: seq<SpaceView>)
      requires Shared() && ViewsAre(vs) && mem.Valid() && HeapInv(vs, mem.slots, mem.handles)
      modifies spaces, mem
      ensures ViewsAre(ws) && mem.Valid() && mem.handles == old(mem.handles)
      ensures ok ==> HeapInv(ws, mem.slots, mem.handles)
      ensures ok ==> UsedAddrs(mem.slots) == Reach(GraphOf(old(mem.slots)), Held(mem.handles))
      ensures ok ==> forall a :: IsUsed(mem.slots, a) ==> IsUsed(old(mem.slots), a) && mem.slots[a].payload.obj == old(mem.slots)[a].payload.obj
      ensures ok ==> HasFree(ws, |ws|)
      ensures PagesKept(vs, ws)
    {
      ghost var m0 := mem.slots;
      ghost var h := mem.handles;
      CollectPlan(vs, m0, h);
      SaveCountsAll(vs);
      FindRootsAll(vs);
      MarkAll(vs);
      ghost var m3 := mem.slots;
      MarkedPlan(vs, m0, h, m3);
      assert mem.handles == h;
      ok, ws := SweepAll(vs);
      if ok {
        CollectedAll(vs, m0, h, m3, ws, mem.slots);
      }
    }

    /** Phase 1 on every space. */
    method SaveCountsAll(ghost vs: seq<SpaceView>)
      requires Shared() && ViewsAre(vs) && Layouts(vs, mem.slots)
      modifies mem`slots
      ensures mem.slots == HeapGraph.SaveCounts(old(mem.slots), AllUsed(vs))
    {
      ghost var m0 := mem.slots;
      AllUsedNone(vs);
      PhasesStart(m0, []);
      var i := 0;
      while i < |spaces|
        invariant i <= |spaces| && ViewsAre(vs)
        invariant [mem.slots] == [HeapGraph.SaveCounts(m0, AllUsed(vs[..i]))]
      {
        SaveCountsAt(vs, m0, i);
        i := i + 1;
      }
      AllUsedWhole(vs);
    }

    /** Phase 1 on space `i`, after the spaces before it. */
    method SaveCountsAt(ghost vs: seq<SpaceView>, ghost m0: Heap, i: nat)
      requires Shared() && ViewsAre(vs) && Layouts(vs, m0) && i < |spaces|
      requires mem.slots == HeapGraph.SaveCounts(m0, AllUsed(vs[..i]))
      modifies mem`slots
      ensures ViewsAre(vs)
      ensures mem.slots == HeapGraph.SaveCounts(m0, AllUsed(vs[..i + 1]))
    {
      SaveCountsAllStep(vs, m0, i);
      assert spaces[i].View() == vs[i];
      spaces[i].SaveCounts();
    }

    /** Phase 2 on every space. */
    method FindRootsAll(ghost vs: seq<SpaceView>)
      requires Shared() && ViewsAre(vs) && FindReady(vs, mem.slots)
      requires DomsDisjoint(vs) && AllUsed(vs) <= UsedAddrs(mem.slots)
      modifies mem`slots
      ensures AllUsed(vs) <= GraphOf(old(mem.slots)).Keys
      ensures mem.slots == LowerRoots(old(mem.slots), InEdges(GraphOf(old(mem.slots)), AllUsed(vs)))
    {
      ghost var m0 := mem.slots;
      var i := 0;
      while i < |spaces|
        invariant i <= |spaces| && ViewsAre(vs)
        invariant [mem.slots] == [FoundTo(vs, m0, i)]
      {
        FindRootsAt(vs, m0, i);
        i := i + 1;
      }
      FoundToIs(vs, m0, |vs|);
      AllUsedWhole(vs);
    }

    /** Phase 2 on space `i`, after the spaces before it. */
    method FindRootsAt(ghost vs: seq<SpaceView>, ghost m0: Heap, i: nat)
      requires Shared() && ViewsAre(vs) && FindReady(vs, m0) && i < |spaces|
      requires mem.slots == FoundTo(vs, m0, i)
      modifies mem`slots
      ensures ViewsAre(vs)
      ensures mem.slots == FoundTo(vs, m0, i + 1)
    {
      assert spaces[i].View() == vs[i];
      assert SpaceInv(vs[i], mem.slots) && EdgesClosed(GraphOf(mem.slots));
      spaces[i].FindRoots();
      assert mem.slots == FoundIn(FoundTo(vs, m0, i), vs[i]);
    }

    /** Phase 3 on every space. */
    method MarkAll(ghost vs: seq<SpaceView>)
      requires Shared() && ViewsAre(vs) && Layouts(vs, mem.slots) && EdgesClosed(GraphOf(mem.slots))
      modifies mem`slots
      ensures MarkedFromSet(old(mem.slots), mem.slots, RootsAmong(old(mem.slots), AllUsed(vs)))
    {
      ghost var m0 := mem.slots;
      AllUsedNone(vs);
      MarkedFromNothing(m0);
      var i := 0;
      while i < |spaces|
        invariant i <= |spaces| && ViewsAre(vs)
        invariant MarkedFromSet(m0, mem.slots, RootsAmong(m0, AllUsed(vs[..i])))
      {
        ghost var c := mem.slots;
        MarkAllReady(vs, m0, c, RootsAmong(m0, AllUsed(vs[..i])), i);
        spaces[i].Mark();
        MarkAllNext(vs, m0, c, mem.slots, i);
        i := i + 1;
      }
      AllUsedWhole(vs);
    }

    /** Phase 4 on every space, stopping at the first space whose sweep
        could not get a page.  `ws` are the views afterwards. */
    method SweepAll(ghost vs0: seq<SpaceView>) returns (ok: bool, ghost ws: seq<SpaceView>)
      requires Shared() && ViewsAre(vs0) && mem.Valid() && SweepAllPre(vs0, mem.slots, mem.handles)
      modifies spaces, mem
      ensures ViewsAre(ws) && mem.Valid() && mem.handles == old(mem.handles)
      ensures ok ==> SweepProgress(vs0, old(mem.slots), mem.handles, ws, mem.slots, |spaces|)
      ensures ok ==> HasFree(ws, |ws|)
      ensures PagesKept(vs0, ws)
    {
      ghost var m0 := mem.slots;
      ghost var h := mem.handles;
      SweepAllStart(vs0, m0, h);
      ws := vs0;
      ok := true;
      var i := 0;
      while i < |spaces|
        invariant i <= |spaces| && ViewsAre(ws) && mem.Valid() && mem.handles == h
        invariant SweepProgress(vs0, m0, h, ws, mem.slots, i)
        invariant HasFree(ws, i) && PagesKept(vs0, ws)
      {
        ghost var m := mem.slots;
        SweepAllReady(vs0, m0, h, ws, m, i);
        var grown;
        ghost var v';
        grown, v' := SweepAt(i, ws);
        SweepAllNext(vs0, m0, h, ws, m, v', mem.slots, i);
        SweptViews(vs0, ws, i, v');
        ws := ws[i := v'];
        if !grown {
          return false, ws;
        }
        i := i + 1;
      }
    }

    /** Phase 4 on space `i`; `v'` is its view afterwards. */
    method SweepAt(i: nat, ghost vs: seq<SpaceView>) returns (grown: bool, ghost v': SpaceView)
      requires Shared() && ViewsAre(vs) && i < |spaces|
      requires SpaceInv(vs[i], mem.slots) && mem.Valid() && Counted(mem.slots, mem.handles)
      requires forall a :: a in UsedSet(vs[i]) ==> a in mem.slots && (!mem.slots[a].mark ==> mem.handles[a] == 0)
      modifies spaces[i], mem
      ensures ViewsAre(vs[i := v'])
      ensures mem.handles == old(mem.handles)
      ensures SpaceInv(v', mem.slots) && mem.Valid() && Counted(mem.slots, mem.handles)
      ensures Swept(old(mem.slots), mem.slots, UsedSet(vs[i]))
      ensures UsedSet(v') == UsedSet(vs[i]) - Dead(old(mem.slots), UsedSet(vs[i]))
      ensures forall a :: a in Dom(v') ==> a in Dom(vs[i]) || a !in old(mem.slots)
      ensures |v'.pages| >= |vs[i].pages|
      ensures grown ==> (v'.pages != [] ==> v'.free != [])
    {
      grown := spaces[i].Sweep();
      v' := spaces[i].View();
    }
  }
}
