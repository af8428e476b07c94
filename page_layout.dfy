/**
 * The layout a space keeps in memory: a newest-first list of pages whose
 * slot 0 is a header, and a free list threaded through the free slots.
 * `SpaceInv` is the invariant every public operation of a space preserves;
 * the lemmas here say how each layout-changing step of the space preserves
 * it (adding a page, popping and pushing the free list) and that the rest
 * of the heap may change freely.
 */
module PageLayout {
  import opened Tracing
  import opened Slot
  import opened HeapGraph

  /** A space's fields, together with the ghost page and free-list
      sequences they encode. */
  datatype SpaceView = SpaceView(
    pages: seq<Addr>,      // page base addresses, newest first
    sizes: seq<nat>,       // page sizes, header included
    free: seq<Addr>,       // the free list, head first
    heapSize: nat,
    liveSize: nat,
    pagesHead: Ref,
    freeHead: Ref,
    nextPageSize: nat,
    firstPageSize: nat)

  /** The size of the page added after `k` pages, when the first one had
      `first` slots: every page is twice the size of the one before. */
  function PageSize(first: nat, k: nat): nat
  {
    if k == 0 then first else 2 * PageSize(first, k - 1)
  }

  /** The number of object slots of pages of the given sizes. */
  function SlotsOf(sizes: seq<nat>): nat
  {
    if sizes == [] then 0 else (if sizes[0] > 0 then sizes[0] - 1 else 0) + SlotsOf(sizes[1..])
  }

  /** The link to element `k` of a list, null past its end. */
  function LinkTo(s: seq<Addr>, k: nat): (r: Ref)
    ensures r.At? <==> k < |s|
  {
    if k < |s| then At(s[k]) else Null
  }

  /** Slots 1 to `size - 1` of the page at `base`, in index order. */
  function PageSlots(base: Addr, size: nat): (r: seq<Addr>)
    ensures |r| == if size > 0 then size - 1 else 0
    ensures forall k :: 0 <= k < |r| ==> r[k] == base + 1 + k
  {
    if size == 0 then [] else seq(size - 1, k => base + 1 + k)
  }

  /** The object slots of the given pages, in the order `for_heap_` visits
      them: page by page from the newest, and within a page from index 1. */
  function HeapOrder(pages: seq<Addr>, sizes: seq<nat>): seq<Addr>
  {
    if pages == [] || sizes == [] then [] else PageSlots(pages[0], sizes[0]) + HeapOrder(pages[1..], sizes[1..])
  }

  lemma {:induction false} HeapOrderMember(pages: seq<Addr>, sizes: seq<nat>, a: Addr)
    requires |sizes| == |pages|
    ensures a in HeapOrder(pages, sizes) <==> exists i :: 0 <= i < |pages| && pages[i] < a < pages[i] + sizes[i]
  {
    if pages != [] {
      HeapOrderMember(pages[1..], sizes[1..], a);
      var here := PageSlots(pages[0], sizes[0]);
      if pages[0] < a < pages[0] + sizes[0] {
        assert here[a - pages[0] - 1] == a;
      }
      if exists i :: 0 <= i < |pages| && pages[i] < a < pages[i] + sizes[i] {
        var i :| 0 <= i < |pages| && pages[i] < a < pages[i] + sizes[i];
        if i > 0 {
          assert pages[1..][i - 1] < a < pages[1..][i - 1] + sizes[1..][i - 1];
        }
      }
    }
  }

  /** The object slots of the space's pages. */
  function Body(v: SpaceView): set<Addr>
  {
    set a | a in HeapOrder(v.pages, v.sizes)
  }

  function Headers(v: SpaceView): set<Addr>
  {
    set a | a in v.pages
  }

  /** Every address of the space's pages, headers included. */
  function Dom(v: SpaceView): set<Addr>
  {
    Body(v) + Headers(v)
  }

  function FreeSet(v: SpaceView): set<Addr>
  {
    set a | a in v.free
  }

  /** The used slots: object slots that are not on the free list. */
  function UsedSet(v: SpaceView): set<Addr>
  {
    Body(v) - FreeSet(v)
  }

  /** Each page lies wholly below the pages added after it. */
  predicate Descending(pages: seq<Addr>, sizes: seq<nat>)
    requires |sizes| == |pages|
  {
    forall i, j {:trigger pages[i], pages[j]} :: 0 <= i < j < |pages| ==> pages[j] + sizes[j] <= pages[i]
  }

  /** Page list: linked newest first through the headers, every page of at
      least two slots, address ranges disjoint (newer pages higher up). */
  predicate PagesOk(v: SpaceView, m: Heap)
  {
    |v.sizes| == |v.pages| &&
    v.firstPageSize >= 2 &&
    v.pagesHead == LinkTo(v.pages, 0) &&
    v.nextPageSize == PageSize(v.firstPageSize, |v.pages|) &&
    (forall i :: 0 <= i < |v.pages| ==>
       v.sizes[i] >= 2 &&
       v.pages[i] in m &&
       m[v.pages[i]].payload == Header(v.sizes[i], LinkTo(v.pages, i + 1))) &&
    Descending(v.pages, v.sizes)
  }

  predicate Distinct(s: seq<Addr>)
  {
    forall k, l :: 0 <= k < l < |s| ==> s[k] != s[l]
  }

  /** Free list: distinct object slots, each a free-list cell with its free
      bit set, linked to the next one; the head in `freeHead`. */
  predicate FreeListOk(v: SpaceView, m: Heap)
  {
    v.freeHead == LinkTo(v.free, 0) &&
    Distinct(v.free) &&
    forall k :: 0 <= k < |v.free| ==>
      v.free[k] in Body(v) && v.free[k] in m &&
      m[v.free[k]].payload == FreeLink(LinkTo(v.free, k + 1)) && m[v.free[k]].free
  }

  /** An object slot's free bit is set exactly when it is on the free
      list, and a slot that is not free holds an object. */
  predicate BodyOk(v: SpaceView, m: Heap)
  {
    forall a {:trigger a in Body(v)} :: a in Body(v) ==>
      a in m && (m[a].free <==> a in v.free) && (!m[a].free ==> m[a].payload.Used?)
  }

  /** `heap_size_` counts object slots, `live_size_` the used ones, and
      together with the free list's length they add up. */
  predicate CountsOk(v: SpaceView)
  {
    v.heapSize == SlotsOf(v.sizes) &&
    v.liveSize == |UsedSet(v)| &&
    |v.free| + v.liveSize == v.heapSize
  }

  predicate SpaceInv(v: SpaceView, m: Heap)
  {
    PagesOk(v, m) && FreeListOk(v, m) && BodyOk(v, m) && CountsOk(v)
  }

  /** The space as its constructor leaves it. */
  function EmptySpace(firstPageSize: nat): (v: SpaceView)
    ensures v.pages == [] && v.free == [] && v.heapSize == 0 && v.liveSize == 0
    ensures v.pagesHead == Null && v.freeHead == Null && v.nextPageSize == firstPageSize
  {
    SpaceView([], [], [], 0, 0, Null, Null, firstPageSize, firstPageSize)
  }

  lemma EmptySpaceInv(firstPageSize: nat, m: Heap)
    requires firstPageSize >= 2
    ensures SpaceInv(EmptySpace(firstPageSize), m)
    ensures Dom(EmptySpace(firstPageSize)) == {}
  {
    var v := EmptySpace(firstPageSize);
    assert UsedSet(v) == {};
  }

  // ----- what the layout depends on -----

  /** Two slots that agree on everything the layout looks at: free bit,
      union state, and the header or free-list contents. */
  predicate SameLayout(s: Slot, s': Slot)
  {
    s'.free == s.free &&
    (s.payload.Used? <==> s'.payload.Used?) &&
    (!s.payload.Used? ==> s'.payload == s.payload)
  }

  predicate SameLayoutOn(m: Heap, m': Heap, d: set<Addr>)
  {
    forall a :: a in d && a in m ==> a in m' && SameLayout(m[a], m'[a])
  }

  lemma PagesFrame(v: SpaceView, m: Heap, m': Heap)
    requires PagesOk(v, m) && SameLayoutOn(m, m', Dom(v))
    ensures PagesOk(v, m')
  {
    forall i | 0 <= i < |v.pages|
      ensures v.pages[i] in m' && m'[v.pages[i]].payload == m[v.pages[i]].payload
    {
      assert v.pages[i] in Headers(v);
    }
  }

  /** The layout invariant only depends on the layout of the space's own
      addresses: root counts, reference counts, objects and mark bits, and
      every other address, are free to change. */
  lemma LayoutFrame(v: SpaceView, m: Heap, m': Heap)
    requires SpaceInv(v, m) && SameLayoutOn(m, m', Dom(v))
    ensures SpaceInv(v, m')
  {
    PagesFrame(v, m, m');
  }

  // ----- consequences of the invariant -----

  /** A header is not an object slot. */
  lemma HeaderNotInBody(v: SpaceView, m: Heap, i: nat)
    requires PagesOk(v, m) && i < |v.pages|
    ensures v.pages[i] !in Body(v)
  {
    HeapOrderMember(v.pages, v.sizes, v.pages[i]);
    forall j | 0 <= j < |v.pages|
      ensures !(v.pages[j] < v.pages[i] < v.pages[j] + v.sizes[j])
    {
    }
  }

  /** No header is an object slot. */
  lemma HeadersNotInBody(v: SpaceView, m: Heap)
    requires PagesOk(v, m)
    ensures Headers(v) !! Body(v)
  {
    forall i | 0 <= i < |v.pages| ensures v.pages[i] !in Body(v) {
      HeaderNotInBody(v, m, i);
    }
  }

  /** The space's addresses are all in the heap. */
  lemma DomInHeap(v: SpaceView, m: Heap)
    requires SpaceInv(v, m)
    ensures Dom(v) <= m.Keys
  {
  }

  /** Inside the space's pages, holding an object and being a used slot are
      the same thing. */
  lemma UsedSlots(v: SpaceView, m: Heap)
    requires SpaceInv(v, m)
    ensures forall a :: a in UsedSet(v) ==> IsUsed(m, a)
    ensures forall a :: a in Dom(v) && IsUsed(m, a) ==> a in UsedSet(v)
  {
    forall a | a in Dom(v) && IsUsed(m, a) ensures a in UsedSet(v) {
      forall i | 0 <= i < |v.pages| ensures v.pages[i] != a {
        assert m[v.pages[i]].payload.Header?;
      }
      forall k | 0 <= k < |v.free| ensures v.free[k] != a {
        assert m[v.free[k]].payload.FreeLink?;
      }
    }
  }

  /** The free list never outgrows the heap: `live_size_ <= heap_size_`, and
      the free list is empty exactly when every slot is used. */
  lemma LiveWithinHeap(v: SpaceView, m: Heap)
    requires SpaceInv(v, m)
    ensures v.liveSize <= v.heapSize
    ensures v.free == [] <==> v.liveSize == v.heapSize
    ensures v.freeHead == Null <==> v.free == []
  {
  }

  lemma {:induction false} SlotsOfPositive(sizes: seq<nat>)
    requires sizes != [] && sizes[0] >= 2
    ensures SlotsOf(sizes) >= 1
  {
  }

  /** When the space has a page and at most three quarters of its slots are
      used, the free list is not empty. */
  lemma FreeAfterSweep(v: SpaceView, m: Heap)
    requires SpaceInv(v, m) && v.pages != [] && !(4 * v.liveSize > 3 * v.heapSize)
    ensures v.free != [] && v.freeHead.At?
  {
    SlotsOfPositive(v.sizes);
  }

  // ----- writing one slot -----

  /** The page list only looks at the headers: writing any other slot
      keeps it. */
  lemma PagesAfterWrite(v: SpaceView, v': SpaceView, m: Heap, a: Addr, s: Slot)
    requires PagesOk(v, m) && a !in Headers(v)
    requires v'.pages == v.pages && v'.sizes == v.sizes && v'.pagesHead == v.pagesHead
    requires v'.nextPageSize == v.nextPageSize && v'.firstPageSize == v.firstPageSize
    ensures PagesOk(v', m[a := s])
  {
    forall i | 0 <= i < |v.pages| ensures v.pages[i] != a {
      assert v.pages[i] in Headers(v);
    }
  }

  lemma SameLayoutAt(m: Heap, a: Addr, s: Slot, d: set<Addr>)
    requires a in m && SameLayout(m[a], s)
    ensures SameLayoutOn(m, m[a := s], d)
  {
  }

  // ----- popping the free list (`allocate_`) -----

  function Popped(v: SpaceView): (v': SpaceView)
    requires v.free != []
    ensures v'.free == v.free[1..] && v'.liveSize == v.liveSize + 1
    ensures v'.pages == v.pages && v'.sizes == v.sizes && v'.heapSize == v.heapSize
  {
    v.(free := v.free[1..], freeHead := LinkTo(v.free, 1), liveSize := v.liveSize + 1)
  }

  /** The head of a non-empty free list: a free cell linked to the rest. */
  lemma FreeHead(v: SpaceView, m: Heap)
    requires |v.sizes| == |v.pages| && FreeListOk(v, m) && v.free != []
    ensures v.free[0] in m && v.free[0] in Body(v)
    ensures m[v.free[0]] == Slot(FreeLink(LinkTo(v.free, 1)), true, m[v.free[0]].mark)
  {
  }

  lemma PopSets(v: SpaceView)
    requires |v.sizes| == |v.pages| && v.free != [] && Distinct(v.free) && v.free[0] in Body(v)
    ensures Distinct(v.free[1..]) && v.free[0] !in v.free[1..]
    ensures v.free[0] !in UsedSet(v)
    ensures UsedSet(Popped(v)) == UsedSet(v) + {v.free[0]}
    ensures |UsedSet(Popped(v))| == |UsedSet(v)| + 1
  {
    var a := v.free[0];
    var t := v.free[1..];
    forall k, l | 0 <= k < l < |t| ensures t[k] != t[l] {
      assert t[k] == v.free[k + 1] && t[l] == v.free[l + 1];
    }
    forall l | 0 <= l < |t| ensures t[l] != a {
      assert t[l] == v.free[l + 1];
    }
    assert FreeSet(v) == FreeSet(Popped(v)) + {a};
    assert UsedSet(Popped(v)) == UsedSet(v) + {a};
  }

  lemma PopFreeList(v: SpaceView, m: Heap, s: Slot)
    requires |v.sizes| == |v.pages| && FreeListOk(v, m) && v.free != []
    requires Distinct(v.free[1..]) && v.free[0] !in v.free[1..]
    ensures FreeListOk(Popped(v), m[v.free[0] := s])
  {
    var v' := Popped(v);
    forall k | 0 <= k < |v'.free|
      ensures v'.free[k] == v.free[k + 1] && LinkTo(v'.free, k + 1) == LinkTo(v.free, k + 2)
    {
    }
  }

  lemma PopBody(v: SpaceView, m: Heap, obj: Value, rootCount: int)
    requires |v.sizes| == |v.pages| && BodyOk(v, m) && v.free != [] && v.free[0] !in v.free[1..]
    ensures BodyOk(Popped(v), m[v.free[0] := AsUsed(obj, rootCount)])
  {
    var a := v.free[0];
    var v', m' := Popped(v), m[a := AsUsed(obj, rootCount)];
    assert Body(v') == Body(v);
    forall b | b in Body(v')
      ensures b in m' && (m'[b].free <==> b in v'.free) && (!m'[b].free ==> m'[b].payload.Used?)
    {
      assert b in Body(v);
      if b != a && b in v.free {
        var k :| 0 <= k < |v.free| && v.free[k] == b;
        assert v.free[1..][k - 1] == b;
      }
    }
  }

  /** Taking the free list's head and filling it with an object keeps the
      layout, with that one slot more in use. */
  lemma PopInv(v: SpaceView, m: Heap, obj: Value, rootCount: int)
    requires SpaceInv(v, m) && v.free != []
    ensures v.free[0] !in UsedSet(v)
    ensures UsedSet(Popped(v)) == UsedSet(v) + {v.free[0]}
    ensures SpaceInv(Popped(v), m[v.free[0] := AsUsed(obj, rootCount)])
  {
    var a := v.free[0];
    FreeHead(v, m);
    PopSets(v);
    HeadersNotInBody(v, m);
    PagesAfterWrite(v, Popped(v), m, a, AsUsed(obj, rootCount));
    PopFreeList(v, m, AsUsed(obj, rootCount));
    PopBody(v, m, obj, rootCount);
  }

  /** The constructor threw: the slot goes back on the free list.  The
      result is the layout before the pop, with the slot's mark cleared. */
  lemma PopUndone(v: SpaceView, m: Heap, obj: Value, rootCount: int)
    requires SpaceInv(v, m) && v.free != []
    ensures AsFree(AsUsed(obj, rootCount), LinkTo(v.free, 1)) == WithMark(m[v.free[0]], false)
    ensures SpaceInv(v, m[v.free[0] := WithMark(m[v.free[0]], false)])
  {
    var a := v.free[0];
    FreeHead(v, m);
    SameLayoutAt(m, a, WithMark(m[a], false), Dom(v));
    LayoutFrame(v, m, m[a := WithMark(m[a], false)]);
  }

  // ----- pushing on the free list (`deallocate_`) -----

  function Pushed(v: SpaceView, a: Addr): (v': SpaceView)
    requires v.liveSize > 0
    ensures v'.free == [a] + v.free && v'.liveSize == v.liveSize - 1
    ensures v'.pages == v.pages && v'.sizes == v.sizes && v'.heapSize == v.heapSize
  {
    v.(free := [a] + v.free, freeHead := At(a), liveSize := v.liveSize - 1)
  }

  lemma PushSets(v: SpaceView, a: Addr)
    requires |v.sizes| == |v.pages| && a in UsedSet(v) && Distinct(v.free) && v.liveSize == |UsedSet(v)|
    ensures v.liveSize > 0
    ensures Distinct([a] + v.free) && a !in v.free
    ensures UsedSet(Pushed(v, a)) == UsedSet(v) - {a}
    ensures |UsedSet(Pushed(v, a))| == |UsedSet(v)| - 1
  {
    var f := [a] + v.free;
    forall k, l | 0 <= k < l < |f| ensures f[k] != f[l] {
      assert f[l] == v.free[l - 1];
      if k > 0 {
        assert f[k] == v.free[k - 1];
      }
    }
    assert FreeSet(Pushed(v, a)) == FreeSet(v) + {a};
  }

  lemma PushFreeList(v: SpaceView, m: Heap, a: Addr)
    requires |v.sizes| == |v.pages| && FreeListOk(v, m) && a in m && a in Body(v)
    requires v.liveSize > 0 && Distinct([a] + v.free) && a !in v.free
    ensures FreeListOk(Pushed(v, a), m[a := AsFree(m[a], v.freeHead)])
  {
    var v' := Pushed(v, a);
    forall k | 0 < k < |v'.free|
      ensures v'.free[k] == v.free[k - 1] && LinkTo(v'.free, k + 1) == LinkTo(v.free, k)
    {
    }
  }

  lemma PushBody(v: SpaceView, m: Heap, a: Addr)
    requires |v.sizes| == |v.pages| && BodyOk(v, m) && a in m && v.liveSize > 0
    ensures BodyOk(Pushed(v, a), m[a := AsFree(m[a], v.freeHead)])
  {
    var v', m' := Pushed(v, a), m[a := AsFree(m[a], v.freeHead)];
    assert Body(v') == Body(v);
    forall b | b in Body(v')
      ensures b in m' && (m'[b].free <==> b in v'.free) && (!m'[b].free ==> m'[b].payload.Used?)
    {
      assert b in Body(v);
    }
  }

  /** Freeing a used slot of the space keeps the layout, with that one slot
      fewer in use. */
  lemma PushInv(v: SpaceView, m: Heap, a: Addr)
    requires SpaceInv(v, m) && a in UsedSet(v)
    ensures v.liveSize > 0
    ensures UsedSet(Pushed(v, a)) == UsedSet(v) - {a}
    ensures SpaceInv(Pushed(v, a), m[a := AsFree(m[a], v.freeHead)])
  {
    PushSets(v, a);
    HeadersNotInBody(v, m);
    PagesAfterWrite(v, Pushed(v, a), m, a, AsFree(m[a], v.freeHead));
    PushFreeList(v, m, a);
    PushBody(v, m, a);
  }

  // ----- adding a page (`add_page_`) -----

  /** The free-list cells a new page of `n` slots at `b` contributes, head
      first: `add_page_` pushes slots 1 to `n - 1` in index order, so the
      highest ends up first. */
  function NewCells(b: Addr, n: nat): (r: seq<Addr>)
    ensures |r| == if n > 0 then n - 1 else 0
    ensures forall k :: 0 <= k < |r| ==> r[k] == b + n - 1 - k
  {
    if n == 0 then [] else seq(n - 1, k requires 0 <= k < n - 1 => b + n - 1 - k)
  }

  /** The space after `add_page_` placed a page of `nextPageSize` slots at
      `b`. */
  function AddedPage(v: SpaceView, b: Addr): (v': SpaceView)
    requires v.nextPageSize >= 1
    ensures v'.pages == [b] + v.pages && v'.sizes == [v.nextPageSize] + v.sizes
    ensures v'.free == NewCells(b, v.nextPageSize) + v.free
    ensures v'.heapSize == v.heapSize + v.nextPageSize - 1 && v'.liveSize == v.liveSize
    ensures v'.pagesHead == At(b) && v'.nextPageSize == 2 * v.nextPageSize
  {
    var n := v.nextPageSize;
    var free := NewCells(b, n) + v.free;
    v.(pages := [b] + v.pages, sizes := [n] + v.sizes, free := free,
       heapSize := v.heapSize + n - 1, pagesHead := At(b), freeHead := LinkTo(free, 0),
       nextPageSize := 2 * n)
  }

  /** A view whose fields are those `add_page_` leaves is `AddedPage`. */
  lemma AddedPageFields(v: SpaceView, b: Addr, v': SpaceView)
    requires v.nextPageSize >= 1
    requires v'.pages == [b] + v.pages && v'.sizes == [v.nextPageSize] + v.sizes
    requires v'.free == NewCells(b, v.nextPageSize) + v.free && v'.freeHead == LinkTo(v'.free, 0)
    requires v'.heapSize == v.heapSize + v.nextPageSize - 1 && v'.liveSize == v.liveSize
    requires v'.pagesHead == At(b) && v'.nextPageSize == 2 * v.nextPageSize
    requires v'.firstPageSize == v.firstPageSize
    ensures v' == AddedPage(v, b)
  {
  }

  /** Heap `m'` is heap `m` plus `n` fresh slots at `b`, written as a page:
      the header links to the old page list, and each object slot is a free
      cell linked to the slot below it, slot 1 to the old free list. */
  ghost predicate PageWritten(m: Heap, m': Heap, b: Addr, n: nat, pagesHead: Ref, freeHead: Ref)
  {
    (forall a :: a in m ==> a < b) &&
    (forall a :: a in m' <==> a in m || b <= a < b + n) &&
    (forall a :: a in m ==> m'[a] == m[a]) &&
    b in m' && m'[b].payload == Header(n, pagesHead) &&
    CellsLinked(m', b, n, freeHead)
  }

  /** Writing a page keeps every earlier slot and adds no used one. */
  lemma PageWrittenExtends(m: Heap, m': Heap, b: Addr, n: nat, pagesHead: Ref, freeHead: Ref)
    requires PageWritten(m, m', b, n, pagesHead, freeHead)
    ensures Extends(m, m')
  {
    forall a | a in m' && a !in m
      ensures !m'[a].payload.Used?
    {
      assert b <= a < b + n;
    }
  }

  /** Slots `b + 1` to `b + n - 1` are free cells, each linked to the one
      below it and the lowest to `freeHead`. */
  ghost predicate CellsLinked(m: Heap, b: Addr, n: nat, freeHead: Ref)
  {
    forall a :: b < a < b + n ==>
      a in m && m[a].payload == FreeLink(if a == b + 1 then freeHead else At(a - 1)) && m[a].free
  }

  /** The writes of `add_page_` one after the other: `n` fresh slots at
      `b` above the old heap, slot `b` made a header, slots above it made
      free cells. */
  /** One step of the loop of `add_page_`: pushing slot `b + i` on a free
      list whose head is `LinkTo(NewCells(b, i) + free, 0)`. */
  lemma PushCellStep(m0: Heap, m: Heap, b: Addr, i: nat, free: seq<Addr>)
    requires 1 <= i && b + i in m && m.Keys == m0.Keys
    requires CellsLinked(m, b, i, LinkTo(free, 0))
    requires forall a :: a in m0 && !(b < a < b + i) ==> m[a] == m0[a]
    ensures var m' := m[b + i := AsFree(m[b + i], LinkTo(NewCells(b, i) + free, 0))];
            m'.Keys == m0.Keys &&
            CellsLinked(m', b, i + 1, LinkTo(free, 0)) &&
            (forall a :: a in m0 && !(b < a < b + i + 1) ==> m'[a] == m0[a])
    ensures NewCells(b, i + 1) + free == [b + i] + (NewCells(b, i) + free)
  {
    assert NewCells(b, i + 1) == [b + i] + NewCells(b, i);
    if i == 1 {
      assert NewCells(b, i) + free == free;
    } else {
      assert (NewCells(b, i) + free)[0] == b + i - 1;
    }
  }

  /** The state of the loop of `add_page_` after slots 1 to `i - 1` of the
      page at `b` are pushed on the free list `oldFree`. */
  ghost predicate CellsPushed(m0: Heap, m: Heap, b: Addr, i: nat, oldFree: seq<Addr>, free: seq<Addr>, freeHead: Ref)
  {
    m.Keys == m0.Keys &&
    (forall a :: a in m0 && !(b < a < b + i) ==> m[a] == m0[a]) &&
    CellsLinked(m, b, i, LinkTo(oldFree, 0)) &&
    free == NewCells(b, i) + oldFree && freeHead == LinkTo(free, 0)
  }

  lemma PushedNone(m: Heap, b: Addr, free: seq<Addr>)
    ensures CellsPushed(m, m, b, 1, free, free, LinkTo(free, 0))
  {
    assert NewCells(b, 1) + free == free;
  }

  lemma PushedStep(m0: Heap, m: Heap, b: Addr, i: nat, oldFree: seq<Addr>, free: seq<Addr>, freeHead: Ref)
    requires CellsPushed(m0, m, b, i, oldFree, free, freeHead) && 1 <= i && b + i in m
    ensures CellsPushed(m0, m[b + i := AsFree(m[b + i], freeHead)], b, i + 1, oldFree, [b + i] + free, At(b + i))
  {
    PushCellStep(m0, m, b, i, oldFree);
  }

  lemma PageWrittenBySteps(m0: Heap, m1: Heap, m2: Heap, m3: Heap, b: Addr, n: nat, pagesHead: Ref, freeHead: Ref)
    requires forall a :: a in m0 ==> a < b
    requires forall a :: a in m1 <==> a in m0 || b <= a < b + n
    requires forall a :: a in m0 ==> m1[a] == m0[a]
    requires n >= 1 && b in m2 && m2 == m1[b := m2[b]] && m2[b].payload == Header(n, pagesHead)
    requires m3.Keys == m2.Keys
    requires forall a :: a in m2 && !(b < a < b + n) ==> m3[a] == m2[a]
    requires CellsLinked(m3, b, n, freeHead)
    ensures PageWritten(m0, m3, b, n, pagesHead, freeHead)
  {
    assert forall a :: a in m2 <==> a in m1;
  }

  lemma {:induction false} PageSizeAtLeast(first: nat, k: nat)
    ensures PageSize(first, k) >= first
  {
    if k > 0 {
      PageSizeAtLeast(first, k - 1);
    }
  }

  lemma AddedBody(v: SpaceView, b: Addr)
    requires |v.sizes| == |v.pages| && v.nextPageSize >= 1
    ensures forall a :: a in Body(AddedPage(v, b)) <==> a in Body(v) || b < a < b + v.nextPageSize
    ensures forall a :: a in FreeSet(AddedPage(v, b)) <==> a in FreeSet(v) || b < a < b + v.nextPageSize
  {
    var v' := AddedPage(v, b);
    var n := v.nextPageSize;
    assert v'.pages[1..] == v.pages && v'.sizes[1..] == v.sizes;
    assert HeapOrder(v'.pages, v'.sizes) == PageSlots(b, n) + HeapOrder(v.pages, v.sizes);
    forall a | b < a < b + n ensures a in PageSlots(b, n) && a in NewCells(b, n) {
      assert PageSlots(b, n)[a - b - 1] == a;
      assert NewCells(b, n)[b + n - 1 - a] == a;
    }
  }

  /** Every page of a valid space lies below any address not in the heap. */
  lemma PagesBelow(v: SpaceView, m: Heap, b: Addr)
    requires SpaceInv(v, m) && forall a :: a in m ==> a < b
    ensures forall j :: 0 <= j < |v.pages| ==> v.pages[j] + v.sizes[j] <= b
  {
    forall j | 0 <= j < |v.pages| ensures v.pages[j] + v.sizes[j] <= b {
      var last := v.pages[j] + v.sizes[j] - 1;
      HeapOrderMember(v.pages, v.sizes, last);
      assert last in Body(v);
    }
  }

  lemma AddedPages(v: SpaceView, m: Heap, m': Heap, b: Addr)
    requires PagesOk(v, m) && PageWritten(m, m', b, v.nextPageSize, v.pagesHead, v.freeHead)
    requires v.nextPageSize >= 2
    requires forall j :: 0 <= j < |v.pages| ==> v.pages[j] + v.sizes[j] <= b
    ensures PagesOk(AddedPage(v, b), m')
  {
    var v' := AddedPage(v, b);
    AddedHeaders(v, m, m', b);
    DescendingCons(v.pages, v.sizes, b, v.nextPageSize);
    assert v'.nextPageSize == PageSize(v.firstPageSize, |v.pages| + 1);
  }

  /** The headers of a space after a page is added in front: the new one,
      then the old ones, each linked to the next. */
  lemma AddedHeaders(v: SpaceView, m: Heap, m': Heap, b: Addr)
    requires PagesOk(v, m) && PageWritten(m, m', b, v.nextPageSize, v.pagesHead, v.freeHead)
    requires v.nextPageSize >= 2
    ensures var v' := AddedPage(v, b);
            forall i :: 0 <= i < |v'.pages| ==>
              v'.sizes[i] >= 2 && v'.pages[i] in m' &&
              m'[v'.pages[i]].payload == Header(v'.sizes[i], LinkTo(v'.pages, i + 1))
  {
    var v' := AddedPage(v, b);
    forall i | 0 < i < |v'.pages|
      ensures v'.sizes[i] >= 2 && v'.pages[i] in m' &&
              m'[v'.pages[i]].payload == Header(v'.sizes[i], LinkTo(v'.pages, i + 1))
    {
      assert v'.pages[i] == v.pages[i - 1] && v'.sizes[i] == v.sizes[i - 1];
      assert LinkTo(v'.pages, i + 1) == LinkTo(v.pages, i);
    }
    assert LinkTo(v'.pages, 1) == v.pagesHead;
  }

  /** A new page above every old one keeps the page list descending. */
  lemma DescendingCons(pages: seq<Addr>, sizes: seq<nat>, b: Addr, n: nat)
    requires |sizes| == |pages| && Descending(pages, sizes)
    requires forall j :: 0 <= j < |pages| ==> pages[j] + sizes[j] <= b
    ensures Descending([b] + pages, [n] + sizes)
  {
    var ps, ss := [b] + pages, [n] + sizes;
    forall i, j | 0 <= i < j < |ps| ensures ps[j] + ss[j] <= ps[i] {
      assert ps[j] == pages[j - 1] && ss[j] == sizes[j - 1];
      if i > 0 {
        assert ps[i] == pages[i - 1];
      }
    }
  }

  lemma CellsDistinct(cells: seq<Addr>, free: seq<Addr>, b: Addr)
    requires Distinct(cells) && Distinct(free)
    requires forall k :: 0 <= k < |cells| ==> cells[k] > b
    requires forall k :: 0 <= k < |free| ==> free[k] < b
    ensures Distinct(cells + free)
  {
    var f := cells + free;
    forall k, l | 0 <= k < l < |f| ensures f[k] != f[l] {
      if l >= |cells| {
        assert f[l] == free[l - |cells|];
        if k >= |cells| {
          assert f[k] == free[k - |cells|];
        }
      }
    }
  }

  /** Cell `k` of a new page's free cells links to the next cell, the last
      one to the old free list. */
  lemma NewCellLinked(m: Heap, m': Heap, b: Addr, n: nat, pagesHead: Ref, free: seq<Addr>, k: nat)
    requires PageWritten(m, m', b, n, pagesHead, LinkTo(free, 0))
    requires n >= 2 && k < n - 1
    ensures var f := NewCells(b, n) + free;
            f[k] in m' && m'[f[k]].payload == FreeLink(LinkTo(f, k + 1)) && m'[f[k]].free
  {
    var f := NewCells(b, n) + free;
    var a := b + n - 1 - k;
    assert f[k] == a;
    assert b < a < b + n;
    if k + 1 < n - 1 {
      assert f[k + 1] == a - 1;
    } else {
      assert a == b + 1;
      assert LinkTo(f, k + 1) == LinkTo(free, 0);
    }
  }

  lemma AddedFreeList(v: SpaceView, m: Heap, m': Heap, b: Addr)
    requires |v.sizes| == |v.pages| && FreeListOk(v, m)
    requires PageWritten(m, m', b, v.nextPageSize, v.pagesHead, v.freeHead)
    requires v.nextPageSize >= 2
    ensures FreeListOk(AddedPage(v, b), m')
  {
    var v' := AddedPage(v, b);
    var n := v.nextPageSize;
    AddedBody(v, b);
    CellsDistinct(NewCells(b, n), v.free, b);
    forall k | 0 <= k < |v'.free|
      ensures v'.free[k] in Body(v') && v'.free[k] in m'
      ensures m'[v'.free[k]].payload == FreeLink(LinkTo(v'.free, k + 1)) && m'[v'.free[k]].free
    {
      if k < n - 1 {
        NewCellLinked(m, m', b, n, v.pagesHead, v.free, k);
        assert b < v'.free[k] < b + n;
      } else {
        OldCellLinked(v, m, m', b, k);
      }
    }
  }

  lemma OldCellLinked(v: SpaceView, m: Heap, m': Heap, b: Addr, k: nat)
    requires |v.sizes| == |v.pages| && FreeListOk(v, m)
    requires v.nextPageSize >= 2 && v.nextPageSize - 1 <= k < |v.free| + v.nextPageSize - 1
    requires forall a :: a in m ==> a in m' && m'[a] == m[a]
    ensures var f := NewCells(b, v.nextPageSize) + v.free;
            f[k] == v.free[k - (v.nextPageSize - 1)] && f[k] in m' && f[k] in Body(v) &&
            m'[f[k]].payload == FreeLink(LinkTo(f, k + 1)) && m'[f[k]].free
  {
    var f := NewCells(b, v.nextPageSize) + v.free;
    var i := k - (v.nextPageSize - 1);
    assert f[k] == v.free[i];
    assert LinkTo(f, k + 1) == LinkTo(v.free, i + 1);
  }

  lemma AddedBodyOk(v: SpaceView, m: Heap, m': Heap, b: Addr)
    requires |v.sizes| == |v.pages| && BodyOk(v, m) && PageWritten(m, m', b, v.nextPageSize, v.pagesHead, v.freeHead)
    requires v.nextPageSize >= 2
    ensures BodyOk(AddedPage(v, b), m')
    ensures UsedSet(AddedPage(v, b)) == UsedSet(v)
  {
    var v' := AddedPage(v, b);
    AddedBody(v, b);
    forall a | a in Body(v') ensures a in m' && (m'[a].free <==> a in v'.free) && (!m'[a].free ==> m'[a].payload.Used?) {
      if a in Body(v) {
        assert a in m;
        assert a in v'.free <==> a in v.free;
      } else {
        assert a in FreeSet(v');
      }
    }
  }

  /** `add_page_` keeps the layout: the page list gains the new page, the
      free list all of its object slots, and the used slots stay the same. */
  lemma AddPageInv(v: SpaceView, m: Heap, m': Heap, b: Addr)
    requires SpaceInv(v, m) && PageWritten(m, m', b, v.nextPageSize, v.pagesHead, v.freeHead)
    ensures v.nextPageSize >= 2
    ensures SpaceInv(AddedPage(v, b), m')
    ensures UsedSet(AddedPage(v, b)) == UsedSet(v)
    ensures forall a :: a in Dom(AddedPage(v, b)) <==> a in Dom(v) || b <= a < b + v.nextPageSize
  {
    PageSizeAtLeast(v.firstPageSize, |v.pages|);
    PagesBelow(v, m, b);
    AddedPages(v, m, m', b);
    AddedFreeList(v, m, m', b);
    AddedBodyOk(v, m, m', b);
    var v' := AddedPage(v, b);
    assert SlotsOf(v'.sizes) == v.nextPageSize - 1 + SlotsOf(v.sizes) by {
      assert v'.sizes[1..] == v.sizes;
    }
    AddedDom(v, b);
  }

  lemma AddedDom(v: SpaceView, b: Addr)
    requires |v.sizes| == |v.pages| && v.nextPageSize >= 1
    ensures forall a :: a in Dom(AddedPage(v, b)) <==> a in Dom(v) || b <= a < b + v.nextPageSize
  {
    AddedBody(v, b);
    assert Headers(AddedPage(v, b)) == Headers(v) + {b};
  }

  // ----- the heap walk (`for_heap_`) -----

  /** The used slots among `s`, in order, a slot counting as used when its
      free bit is clear: what `for_heap_` hands to its function. */
  function UsedIn(m: Heap, s: seq<Addr>): seq<Addr>
  {
    if s == [] then []
    else UsedIn(m, s[..|s| - 1]) + (if s[|s| - 1] in m && !m[s[|s| - 1]].free then [s[|s| - 1]] else [])
  }

  lemma {:induction false} UsedInMember(m: Heap, s: seq<Addr>, a: Addr)
    ensures a in UsedIn(m, s) <==> a in s && a in m && !m[a].free
  {
    if s != [] {
      var init := s[..|s| - 1];
      UsedInMember(m, init, a);
      assert s == init + [s[|s| - 1]];
    }
  }

  lemma {:induction false} UsedInDistinct(m: Heap, s: seq<Addr>)
    requires Distinct(s)
    ensures Distinct(UsedIn(m, s))
  {
    if s != [] {
      var init := s[..|s| - 1];
      var x := s[|s| - 1];
      assert Distinct(init) by {
        forall k, l | 0 <= k < l < |init| ensures init[k] != init[l] {
          assert init[k] == s[k] && init[l] == s[l];
        }
      }
      UsedInDistinct(m, init);
      UsedInMember(m, init, x);
      assert x !in init by {
        forall k | 0 <= k < |init| ensures init[k] != x {
          assert init[k] == s[k];
        }
      }
      var u := UsedIn(m, init);
      forall k, l | 0 <= k < l < |UsedIn(m, s)| ensures UsedIn(m, s)[k] != UsedIn(m, s)[l] {
        if l >= |u| {
          assert UsedIn(m, s)[l] == x;
          assert UsedIn(m, s)[k] == u[k];
        }
      }
    }
  }

  lemma PageSlotsDistinct(base: Addr, size: nat)
    ensures Distinct(PageSlots(base, size))
  {
  }

  lemma {:induction false} HeapOrderDistinct(pages: seq<Addr>, sizes: seq<nat>)
    requires |sizes| == |pages| && Descending(pages, sizes)
    ensures Distinct(HeapOrder(pages, sizes))
  {
    if pages != [] {
      var rest := HeapOrder(pages[1..], sizes[1..]);
      var here := PageSlots(pages[0], sizes[0]);
      assert Descending(pages[1..], sizes[1..]) by {
        forall i, j | 0 <= i < j < |pages| - 1
          ensures pages[1..][j] + sizes[1..][j] <= pages[1..][i]
        {
          assert pages[j + 1] + sizes[j + 1] <= pages[i + 1];
        }
      }
      HeapOrderDistinct(pages[1..], sizes[1..]);
      forall k | 0 <= k < |rest| ensures rest[k] < pages[0] {
        HeapOrderMember(pages[1..], sizes[1..], rest[k]);
        var j :| 0 <= j < |pages| - 1 && pages[1..][j] < rest[k] < pages[1..][j] + sizes[1..][j];
        assert pages[j + 1] + sizes[j + 1] <= pages[0];
      }
      PageSlotsDistinct(pages[0], sizes[0]);
      CellsDistinct(here, rest, pages[0]);
    }
  }

  lemma {:induction false} HeapOrderPrefix(pages: seq<Addr>, sizes: seq<nat>, k: nat)
    requires |sizes| == |pages| && k < |pages|
    ensures HeapOrder(pages[..k + 1], sizes[..k + 1]) ==
            HeapOrder(pages[..k], sizes[..k]) + PageSlots(pages[k], sizes[k])
  {
    if k == 0 {
      assert pages[..1][1..] == [] && sizes[..1][1..] == [];
    } else {
      var ps, ss := pages[1..], sizes[1..];
      HeapOrderPrefix(ps, ss, k - 1);
      var first := PageSlots(pages[0], sizes[0]);
      assert pages[..k + 1][1..] == ps[..k] && sizes[..k + 1][1..] == ss[..k];
      assert HeapOrder(pages[..k + 1], sizes[..k + 1]) == first + HeapOrder(ps[..k], ss[..k]);
      assert pages[..k][1..] == ps[..k - 1] && sizes[..k][1..] == ss[..k - 1];
      assert HeapOrder(pages[..k], sizes[..k]) == first + HeapOrder(ps[..k - 1], ss[..k - 1]);
      assert ps[k - 1] == pages[k] && ss[k - 1] == sizes[k];
    }
  }

  function Elems(s: seq<Addr>): set<Addr>
  {
    set a | a in s
  }

  lemma UsedInSnoc(m: Heap, s: seq<Addr>, y: Addr)
    ensures UsedIn(m, s + [y]) == UsedIn(m, s) + (if y in m && !m[y].free then [y] else [])
  {
    assert (s + [y])[..|s|] == s;
  }

  lemma {:induction false} UsedInAppend(m: Heap, s: seq<Addr>, t: seq<Addr>)
    ensures UsedIn(m, s + t) == UsedIn(m, s) + UsedIn(m, t)
    decreases |t|
  {
    if t != [] {
      var init := t[..|t| - 1];
      var y := t[|t| - 1];
      assert t == init + [y];
      assert s + t == (s + init) + [y];
      UsedInAppend(m, s, init);
      UsedInSnoc(m, s + init, y);
      UsedInSnoc(m, init, y);
    } else {
      assert s + t == s;
    }
  }

  lemma PageSlotsSnoc(base: Addr, i: nat)
    requires i >= 1
    ensures PageSlots(base, i + 1) == PageSlots(base, i) + [base + i]
  {
  }

  /** Page `k`'s header: its size and the link to page `k + 1`. */
  lemma PageAt(v: SpaceView, m: Heap, k: nat)
    requires PagesOk(v, m) && k < |v.pages|
    ensures v.pages[k] in m && v.sizes[k] >= 2
    ensures m[v.pages[k]].payload == Header(v.sizes[k], LinkTo(v.pages, k + 1))
  {
  }

  /** Slot `i` of page `k` is an object slot of the space, present in the
      heap, when `0 < i < size`. */
  lemma SlotOfPage(v: SpaceView, m: Heap, k: nat, i: nat)
    requires |v.sizes| == |v.pages| && BodyOk(v, m) && k < |v.pages| && 1 <= i < v.sizes[k]
    ensures v.pages[k] + i in Body(v) && v.pages[k] + i in m
  {
    var a := v.pages[k] + i;
    assert v.pages[k] < a < v.pages[k] + v.sizes[k];
    HeapOrderMember(v.pages, v.sizes, a);
    assert a in HeapOrder(v.pages, v.sizes);
  }

  /** Every object slot of page `k` is present in the heap. */
  lemma PageInHeap(v: SpaceView, m: Heap, k: nat)
    requires |v.sizes| == |v.pages| && BodyOk(v, m) && k < |v.pages|
    ensures forall a :: v.pages[k] < a < v.pages[k] + v.sizes[k] ==> a in m
  {
    forall a | v.pages[k] < a < v.pages[k] + v.sizes[k]
      ensures a in m
    {
      SlotOfPage(v, m, k, a - v.pages[k]);
    }
  }

  /** The slots `for_heap_` visits, in order. */
  function Visits(v: SpaceView, m: Heap): seq<Addr>
  {
    UsedIn(m, HeapOrder(v.pages, v.sizes))
  }

  /** `for_heap_` visits each used slot of the space exactly once. */
  lemma VisitsUsed(v: SpaceView, m: Heap)
    requires SpaceInv(v, m)
    ensures Distinct(Visits(v, m))
    ensures forall a :: a in Visits(v, m) <==> a in UsedSet(v)
  {
    HeapOrderDistinct(v.pages, v.sizes);
    UsedInDistinct(m, HeapOrder(v.pages, v.sizes));
    forall a ensures a in Visits(v, m) <==> a in UsedSet(v) {
      UsedInMember(m, HeapOrder(v.pages, v.sizes), a);
    }
  }
}
