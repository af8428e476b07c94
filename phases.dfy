/**
 * The four collection phases of one space, stated over the slots the space
 * hands to its callback: save the reference counts, subtract the in-edges,
 * mark from the slots that still have a positive root count, and sweep.
 * Each phase is a loop over the visit list; the lemmas here are its steps.
 */
module Phases {
  import opened Tracing
  import opened Slot
  import opened HeapGraph
  import opened Memory
  import opened PageLayout

  /** The slots of `s` that `mark` searches from: used, with a positive
      root count. */
  function RootsAmong(m: Heap, s: set<Addr>): (r: set<Addr>)
    ensures forall a :: a in r <==> a in s && IsUsed(m, a) && m[a].payload.rootCount > 0
  {
    set a | a in s && IsUsed(m, a) && m[a].payload.rootCount > 0
  }

  /** The slots of `s` that `sweep` frees: used and unmarked. */
  function Dead(m: Heap, s: set<Addr>): (r: set<Addr>)
    ensures forall a :: a in r <==> a in s && IsUsed(m, a) && !m[a].mark
  {
    set a | a in s && IsUsed(m, a) && !m[a].mark
  }

  /** What sweeping the slots `s` of `m` leaves in `m'`: the unmarked used
      slots of `s` are no longer used, every survivor keeps its object,
      the marks of `s` are cleared, slots outside `s` keep their layout,
      and any slot added meanwhile is not used. */
  ghost predicate Swept(m: Heap, m': Heap, s: set<Addr>)
  {
    (forall a :: a in m ==> a in m') &&
    (forall a :: a in m' && a !in m ==> !m'[a].payload.Used?) &&
    UsedAddrs(m') == UsedAddrs(m) - Dead(m, s) &&
    (forall a :: IsUsed(m', a) ==>
       m'[a].payload.obj == m[a].payload.obj && m'[a].mark == (m[a].mark && a !in s)) &&
    (forall a :: a in m && a !in s ==> SameLayout(m[a], m'[a]))
  }

  /** What every phase relies on about `for_heap_`: it visits the space's
      used slots, each once. */
  lemma VisitsFacts(v: SpaceView, m: Heap)
    requires SpaceInv(v, m)
    ensures Distinct(Visits(v, m)) && Elems(Visits(v, m)) == UsedSet(v)
    ensures forall a :: a in Visits(v, m) ==> IsUsed(m, a)
  {
    VisitsUsed(v, m);
    PageLayout.UsedSlots(v, m);
  }

  /** A used slot of the space is a used slot of the heap. */
  lemma UsedSlotIsUsed(v: SpaceView, m: Heap, x: Addr)
    requires SpaceInv(v, m) && x in UsedSet(v)
    ensures IsUsed(m, x)
  {
    PageLayout.UsedSlots(v, m);
  }

  /** `deallocate_` keeps the space's layout: the slot moves from the used
      slots to the head of the free list. */
  lemma DeallocatedLayout(v: SpaceView, m: Heap, x: Addr)
    requires SpaceInv(v, m) && x in UsedSet(v)
    requires IsUsed(m, x) && Releasable(m, Edges(m[x].payload.obj))
    ensures v.liveSize > 0
    ensures SpaceInv(Pushed(v, x), Deallocated(m, x, v.freeHead))
    ensures UsedSet(Pushed(v, x)) == UsedSet(v) - {x}
  {
    var m1 := LowerRefs(m, Targets(Edges(m[x].payload.obj)));
    assert SameLayoutOn(m, m1, Dom(v));
    LayoutFrame(v, m, m1);
    PushInv(v, m1, x);
  }

  /** Clearing a used slot's mark keeps the layout. */
  lemma ClearedLayout(v: SpaceView, m: Heap, x: Addr)
    requires SpaceInv(v, m) && x in UsedSet(v)
    ensures IsUsed(m, x)
    ensures SpaceInv(v, m[x := WithMark(m[x], false)])
  {
    UsedSlotIsUsed(v, m, x);
    SameLayoutAt(m, x, WithMark(m[x], false), Dom(v));
    LayoutFrame(v, m, m[x := WithMark(m[x], false)]);
  }

  /** Clearing a used slot's mark keeps the counting. */
  lemma ClearedCounted(m: Heap, h: multiset<Addr>, x: Addr)
    requires IsUsed(m, x) && Counted(m, h)
    ensures Counted(m[x := WithMark(m[x], false)], h)
  {
    var m' := m[x := WithMark(m[x], false)];
    assert UsedAddrs(m') == UsedAddrs(m);
    CountedFrame(m, m', h);
  }

  /** Before the first slot of every phase loop. */
  lemma PhasesStart(m: Heap, visits: seq<Addr>)
    ensures Elems(visits[..0]) == {}
    ensures SaveCounts(m, {}) == m
    ensures LowerRoots(m, InEdges(GraphOf(m), {})) == m
    ensures MarkedFromSet(m, m, RootsAmong(m, {}))
    ensures Swept(m, m, {}) && Dead(m, {}) == {}
  {
    assert Elems(visits[..0]) == {};
    assert SaveCounts(m, {}) == m;
    assert InEdges(GraphOf(m), {}) == multiset{};
    assert LowerRoots(m, multiset{}) == m;
    assert RootsAmong(m, {}) == {};
    MarkedFromNothing(m);
    assert Dead(m, {}) == {};
  }

  /** The visit list before slot `j + 1` is the one before slot `j` and
      slot `j`. */
  lemma ElemsSnoc(visits: seq<Addr>, j: nat)
    requires j < |visits|
    ensures Elems(visits[..j + 1]) == Elems(visits[..j]) + {visits[j]}
    ensures Elems(visits[..j]) <= Elems(visits)
  {
    assert visits[..j + 1] == visits[..j] + [visits[j]];
  }

  /** A distinct visit list has not reached slot `j` before slot `j`. */
  lemma DistinctNotBefore(visits: seq<Addr>, j: nat)
    requires Distinct(visits) && j < |visits|
    ensures visits[j] !in Elems(visits[..j])
  {
  }

  // ----- phase 1: `save_counts` -----

  /** Slot `j` of the visit list: its root count becomes its reference
      count. */
  lemma SaveCountsStep(m0: Heap, visits: seq<Addr>, j: nat)
    requires j < |visits| && forall a :: a in visits ==> IsUsed(m0, a)
    ensures var c := SaveCounts(m0, Elems(visits[..j]));
            var x := visits[j];
            IsUsed(c, x) &&
            SaveCounts(m0, Elems(visits[..j + 1])) ==
              c[x := c[x].(payload := c[x].payload.(rootCount := c[x].payload.refCount))]
  {
    ElemsSnoc(visits, j);
    SaveCountsOneMore(m0, Elems(visits[..j]), visits[j]);
  }

  // ----- phase 2: `find_roots` -----

  /** Lowering root counts keeps the graph. */
  lemma LowerRootsKeepsGraph(m: Heap, d: multiset<Addr>)
    ensures UsedAddrs(LowerRoots(m, d)) == UsedAddrs(m)
    ensures GraphOf(LowerRoots(m, d)) == GraphOf(m)
  {
    SameExceptRootsAndMarksGraph(m, LowerRoots(m, d));
  }

  /** Slot `j` of the visit list: tracing its object lowers the root count
      of each target by one, which adds its out-edges to the in-edges
      subtracted so far. */
  lemma FindRootsStep(m0: Heap, visits: seq<Addr>, j: nat)
    requires j < |visits| && Distinct(visits) && forall a :: a in visits ==> IsUsed(m0, a)
    requires EdgesClosed(GraphOf(m0))
    ensures var g := GraphOf(m0);
            var c := LowerRoots(m0, InEdges(g, Elems(visits[..j])));
            IsUsed(c, visits[j]) &&
            var es := Edges(c[visits[j]].payload.obj);
            (forall e :: e in es && e.At? ==> IsUsed(c, e.addr)) &&
            LowerRoots(c, Targets(es)) == LowerRoots(m0, InEdges(g, Elems(visits[..j + 1])))
  {
    var g := GraphOf(m0);
    var s := Elems(visits[..j]);
    var x := visits[j];
    var c := LowerRoots(m0, InEdges(g, s));
    LowerRootsKeepsGraph(m0, InEdges(g, s));
    ElemsSnoc(visits, j);
    DistinctNotBefore(visits, j);
    assert GraphOf(c)[x] == g[x];
    InEdgesOneMore(g, s, x);
    LowerRootsCompose(m0, InEdges(g, s), Targets(g[x]));
  }

  /** One slot of `find_roots`: the root count of each target of its
      edges drops by one.  (A slot that is not used is left alone; the
      phase never hands one on.) */
  ghost function LowerOne(c: Heap, x: Addr): Heap
  {
    if IsUsed(c, x) then LowerRoots(c, Targets(Edges(c[x].payload.obj))) else c
  }

  /** The heap after `find_roots` has handled the first `j` slots of the
      visit list. */
  ghost function LoweredTo(m: Heap, visits: seq<Addr>, j: nat): Heap
    requires j <= |visits|
    decreases j
  {
    if j == 0 then m else LowerOne(LoweredTo(m, visits, j - 1), visits[j - 1])
  }

  /** What a step of `find_roots` needs: a used slot whose edges lead to
      used slots. */
  ghost predicate LowerReady(c: Heap, x: Addr)
  {
    IsUsed(c, x) && forall e :: e in Edges(c[x].payload.obj) && e.At? ==> IsUsed(c, e.addr)
  }

  /** What `find_roots` needs of the heap it starts from. */
  ghost predicate FindRootsPre(m: Heap, visits: seq<Addr>)
  {
    Distinct(visits) && (forall a :: a in visits ==> IsUsed(m, a)) && EdgesClosed(GraphOf(m))
  }

  /** After `j` slots, every in-edge out of those slots has been
      subtracted from its target's root count. */
  lemma {:induction false} LoweredToIs(m: Heap, visits: seq<Addr>, j: nat)
    requires FindRootsPre(m, visits) && j <= |visits|
    ensures LoweredTo(m, visits, j) == LowerRoots(m, InEdges(GraphOf(m), Elems(visits[..j])))
    decreases j
  {
    if j == 0 {
      LoweredToZero(m, visits);
    } else {
      var i := j - 1;
      LoweredToIs(m, visits, i);
      LoweredToSucc(m, visits, i);
    }
  }

  lemma LoweredToZero(m: Heap, visits: seq<Addr>)
    ensures LoweredTo(m, visits, 0) == LowerRoots(m, InEdges(GraphOf(m), Elems(visits[..0])))
  {
    PhasesStart(m, visits);
  }

  lemma LoweredToSucc(m: Heap, visits: seq<Addr>, j: nat)
    requires FindRootsPre(m, visits) && j < |visits|
    requires LoweredTo(m, visits, j) == LowerRoots(m, InEdges(GraphOf(m), Elems(visits[..j])))
    ensures LowerReady(LoweredTo(m, visits, j), visits[j])
    ensures LoweredTo(m, visits, j + 1) == LowerRoots(m, InEdges(GraphOf(m), Elems(visits[..j + 1])))
  {
    FindRootsStep(m, visits, j);
    assert LoweredTo(m, visits, j + 1) == LowerOne(LoweredTo(m, visits, j), visits[j]);
  }

  /** Every slot of the visit list is ready when its turn comes, and the
      whole phase subtracts the in-edges out of all of them. */
  lemma LoweredAll(m: Heap, visits: seq<Addr>)
    requires FindRootsPre(m, visits)
    ensures forall j :: 0 <= j < |visits| ==> LowerReady(LoweredTo(m, visits, j), visits[j])
    ensures LoweredTo(m, visits, |visits|) == LowerRoots(m, InEdges(GraphOf(m), Elems(visits)))
  {
    forall j | 0 <= j < |visits|
      ensures LowerReady(LoweredTo(m, visits, j), visits[j])
    {
      LoweredToIs(m, visits, j);
      LoweredToSucc(m, visits, j);
    }
    LoweredToIs(m, visits, |visits|);
    assert visits[..|visits|] == visits;
  }

  // ----- phase 3: `mark` -----

  /** Slot `j` of the visit list: it is still used with the payload it had
      before marking began, and it joins the roots exactly when its root
      count is positive. */
  lemma MarkStep(m0: Heap, m: Heap, visits: seq<Addr>, j: nat)
    requires j < |visits| && forall a :: a in visits ==> IsUsed(m0, a)
    requires EdgesClosed(GraphOf(m0))
    requires MarkedFromSet(m0, m, RootsAmong(m0, Elems(visits[..j])))
    ensures IsUsed(m, visits[j]) && EdgesClosed(GraphOf(m))
    ensures m[visits[j]].payload == m0[visits[j]].payload
    ensures RootsAmong(m0, Elems(visits[..j + 1])) ==
              RootsAmong(m0, Elems(visits[..j])) +
              (if m0[visits[j]].payload.rootCount > 0 then {visits[j]} else {})
  {
    OnlyMarksSetKeepsGraph(m0, m);
    ElemsSnoc(visits, j);
  }

  // ----- phase 4: `sweep` -----

  /** A marked slot survives: its mark is cleared. */
  lemma SweptClear(m0: Heap, m: Heap, s: set<Addr>, x: Addr)
    requires Swept(m0, m, s) && x !in s && IsUsed(m0, x) && m0[x].mark
    ensures IsUsed(m, x) && m[x].mark
    ensures Swept(m0, m[x := WithMark(m[x], false)], s + {x})
    ensures Dead(m0, s + {x}) == Dead(m0, s)
  {
    assert x !in Dead(m0, s);
    var m' := m[x := WithMark(m[x], false)];
    assert UsedAddrs(m') == UsedAddrs(m);
    assert Dead(m0, s + {x}) == Dead(m0, s);
  }

  /** An unmarked slot is deallocated. */
  lemma SweptFree(m0: Heap, m: Heap, s: set<Addr>, x: Addr, next: Ref)
    requires Swept(m0, m, s) && x !in s && IsUsed(m0, x) && !m0[x].mark
    ensures IsUsed(m, x) && !m[x].mark
    ensures Releasable(m, Edges(m[x].payload.obj)) ==>
              Swept(m0, Deallocated(m, x, next), s + {x})
    ensures Dead(m0, s + {x}) == Dead(m0, s) + {x}
  {
    assert x !in Dead(m0, s);
    assert Dead(m0, s + {x}) == Dead(m0, s) + {x};
    if Releasable(m, Edges(m[x].payload.obj)) {
      DeallocatedSwept(m0, m, s, x, next);
    }
  }

  lemma DeallocatedSwept(m0: Heap, m: Heap, s: set<Addr>, x: Addr, next: Ref)
    requires Swept(m0, m, s) && x !in s && IsUsed(m, x) && Releasable(m, Edges(m[x].payload.obj))
    requires Dead(m0, s + {x}) == Dead(m0, s) + {x}
    ensures Swept(m0, Deallocated(m, x, next), s + {x})
  {
    DeallocatedFrame(m, x, next);
    SweptAfterFree(m0, m, Deallocated(m, x, next), s, x);
  }

  lemma SweptAfterFree(m0: Heap, m: Heap, r: Heap, s: set<Addr>, x: Addr)
    requires Swept(m0, m, s) && x !in s && IsUsed(m, x)
    requires Dead(m0, s + {x}) == Dead(m0, s) + {x}
    requires r.Keys == m.Keys && !r[x].payload.Used? && UsedAddrs(r) == UsedAddrs(m) - {x}
    requires forall a :: a in UsedAddrs(r) ==> r[a].payload.obj == m[a].payload.obj && r[a].mark == m[a].mark
    requires forall a :: a in m && a != x ==>
               r[a].free == m[a].free &&
               (r[a].payload.Used? <==> m[a].payload.Used?) &&
               (!m[a].payload.Used? ==> r[a].payload == m[a].payload)
    ensures Swept(m0, r, s + {x})
  {
    forall a | a in m0 && a !in s + {x}
      ensures SameLayout(m0[a], r[a])
    {
      assert SameLayout(m0[a], m[a]);
    }
  }

  /** Slot `j` of the visit list, in either case of `sweep`. */
  lemma SweepStep(m0: Heap, m: Heap, visits: seq<Addr>, j: nat, next: Ref)
    requires j < |visits| && Distinct(visits) && IsUsed(m0, visits[j])
    requires Swept(m0, m, Elems(visits[..j]))
    ensures var x := visits[j];
            var s := Elems(visits[..j]);
            var s' := Elems(visits[..j + 1]);
            x !in Dead(m0, s) && IsUsed(m, x) && m[x].mark == m0[x].mark &&
            (m0[x].mark ==>
               Swept(m0, m[x := WithMark(m[x], false)], s') && Dead(m0, s') == Dead(m0, s)) &&
            (!m0[x].mark ==>
               (Releasable(m, Edges(m[x].payload.obj)) ==> Swept(m0, Deallocated(m, x, next), s')) &&
               Dead(m0, s') == Dead(m0, s) + {x})
  {
    var x := visits[j];
    ElemsSnoc(visits, j);
    DistinctNotBefore(visits, j);
    if m0[x].mark {
      SweptClear(m0, m, Elems(visits[..j]), x);
    } else {
      SweptFree(m0, m, Elems(visits[..j]), x, next);
    }
  }

  /** A space and the heap it lives in, as one sweep step leaves them. */
  datatype Sweeping = Sweeping(v: SpaceView, m: Heap)

  /** What `sweep` may start from: a consistent space whose visit list
      holds each of its used slots once, and no unmarked used slot held by
      a handle outside the heap. */
  ghost predicate SweepPre(v: SpaceView, m: Heap, h: multiset<Addr>, visits: seq<Addr>)
  {
    SpaceInv(v, m) && Counted(m, h) &&
    Distinct(visits) && Elems(visits) == UsedSet(v) &&
    forall a :: a in visits ==> IsUsed(m, a) && (!m[a].mark ==> h[a] == 0)
  }

  /** The visit list `for_heap_` hands to `sweep` meets what the sweep
      needs. */
  lemma SweepReady(v: SpaceView, m: Heap, h: multiset<Addr>, visits: seq<Addr>)
    requires SpaceInv(v, m) && Counted(m, h) && visits == Visits(v, m)
    requires forall a :: a in UsedSet(v) ==> a in m && (!m[a].mark ==> h[a] == 0)
    ensures SweepPre(v, m, h, visits) && Elems(visits) == UsedSet(v)
  {
    VisitsFacts(v, m);
  }

  /** One slot of `sweep`: a marked slot has its mark cleared; an
      unmarked one is deallocated.  (The slot is left alone when it is not
      used, or when its handles cannot be released or nothing is live;
      `SweptToNext` shows that no slot the sweep hands on is one of
      those.) */
  ghost function SweepOne(p: Sweeping, x: Addr): Sweeping
  {
    if !IsUsed(p.m, x) then p
    else if p.m[x].mark then Sweeping(p.v, p.m[x := WithMark(p.m[x], false)])
    else if Releasable(p.m, Edges(p.m[x].payload.obj)) && p.v.liveSize > 0 then
      Sweeping(Pushed(p.v, x), Deallocated(p.m, x, p.v.freeHead))
    else p
  }

  /** A step of `sweep` on a used slot of a consistent space, unmarked
      only if no handle outside the heap holds it, keeps the layout and the
      counting, and frees exactly that slot when it is unmarked. */
  lemma SweepOneKeeps(p: Sweeping, h: multiset<Addr>, x: Addr)
    requires SpaceInv(p.v, p.m) && Counted(p.m, h) && x in UsedSet(p.v)
    requires IsUsed(p.m, x) && (!p.m[x].mark ==> h[x] == 0)
    ensures var r := SweepOne(p, x);
            SpaceInv(r.v, r.m) && Counted(r.m, h) &&
            UsedSet(r.v) == UsedSet(p.v) - (if p.m[x].mark then {} else {x}) &&
            r.v.pages == p.v.pages && r.v.sizes == p.v.sizes && r.m.Keys == p.m.Keys
    ensures !p.m[x].mark ==> Releasable(p.m, Edges(p.m[x].payload.obj)) && p.v.liveSize > 0
  {
    if p.m[x].mark {
      SweepMarkedKeeps(p, h, x);
    } else {
      SweepUnmarkedKeeps(p, h, x);
    }
  }

  lemma SweepMarkedKeeps(p: Sweeping, h: multiset<Addr>, x: Addr)
    requires SpaceInv(p.v, p.m) && Counted(p.m, h) && x in UsedSet(p.v)
    requires IsUsed(p.m, x) && p.m[x].mark
    ensures var r := SweepOne(p, x);
            SpaceInv(r.v, r.m) && Counted(r.m, h) && UsedSet(r.v) == UsedSet(p.v) &&
            r.v.pages == p.v.pages && r.v.sizes == p.v.sizes && r.m.Keys == p.m.Keys
  {
    ClearedLayout(p.v, p.m, x);
    ClearedCounted(p.m, h, x);
  }

  lemma SweepUnmarkedKeeps(p: Sweeping, h: multiset<Addr>, x: Addr)
    requires SpaceInv(p.v, p.m) && Counted(p.m, h) && x in UsedSet(p.v)
    requires IsUsed(p.m, x) && !p.m[x].mark && h[x] == 0
    ensures Releasable(p.m, Edges(p.m[x].payload.obj)) && p.v.liveSize > 0
    ensures var r := SweepOne(p, x);
            SpaceInv(r.v, r.m) && Counted(r.m, h) && UsedSet(r.v) == UsedSet(p.v) - {x} &&
            r.v.pages == p.v.pages && r.v.sizes == p.v.sizes && r.m.Keys == p.m.Keys
  {
    DeallocatedCounted(p.m, h, x, p.v.freeHead);
    DeallocatedLayout(p.v, p.m, x);
    DeallocatedFrame(p.m, x, p.v.freeHead);
  }

  /** The space and heap after `sweep` has handled the first `j` slots of
      the visit list. */
  ghost function SweptTo(v: SpaceView, m: Heap, visits: seq<Addr>, j: nat): Sweeping
    requires j <= |visits|
    decreases j
  {
    if j == 0 then Sweeping(v, m)
    else SweepOne(SweptTo(v, m, visits, j - 1), visits[j - 1])
  }

  /** What holds of the space and heap `r` once `sweep` has handled the
      first `j` slots of the visit list: the layout and the counting are
      kept, and exactly those slots are swept. */
  ghost predicate SweptState(v: SpaceView, m: Heap, h: multiset<Addr>, visits: seq<Addr>, j: nat, r: Sweeping)
    requires j <= |visits|
  {
    LayoutKept(v, m, h, r) && Swept(m, r.m, Elems(visits[..j]))
  }

  /** `r` is a consistent space on the same pages and slots as `v` and
      `m`, whose counting is exact. */
  ghost predicate LayoutKept(v: SpaceView, m: Heap, h: multiset<Addr>, r: Sweeping)
  {
    SpaceInv(r.v, r.m) && Counted(r.m, h) &&
    r.v.pages == v.pages && r.v.sizes == v.sizes && r.m.Keys == m.Keys
  }

  /** Every prefix of `sweep` is in that state. */
  lemma {:induction false} SweptToInv(v: SpaceView, m: Heap, h: multiset<Addr>, visits: seq<Addr>, j: nat)
    requires SweepPre(v, m, h, visits) && j <= |visits|
    ensures SweptState(v, m, h, visits, j, SweptTo(v, m, visits, j))
    decreases j
  {
    if j == 0 {
      SweptStart(v, m, h, visits);
    } else {
      SweptToInv(v, m, h, visits, j - 1);
      SweptToSucc(v, m, h, visits, j - 1);
    }
  }

  lemma SweptToSucc(v: SpaceView, m: Heap, h: multiset<Addr>, visits: seq<Addr>, j: nat)
    requires SweepPre(v, m, h, visits) && j < |visits|
    requires SweptState(v, m, h, visits, j, SweptTo(v, m, visits, j))
    ensures SweptState(v, m, h, visits, j + 1, SweptTo(v, m, visits, j + 1))
  {
    var p := SweptTo(v, m, visits, j);
    SweptStateStep(v, m, h, visits, j, p);
    assert SweptTo(v, m, visits, j + 1) == SweepOne(p, visits[j]);
  }

  /** Before `sweep` handles any slot, nothing is swept yet. */
  lemma SweptStart(v: SpaceView, m: Heap, h: multiset<Addr>, visits: seq<Addr>)
    requires SweepPre(v, m, h, visits)
    ensures SweptState(v, m, h, visits, 0, Sweeping(v, m))
  {
    PhasesStart(m, visits);
  }

  /** Slot `j` of `sweep` on a state reached after the first `j` slots is
      used, releasable when unmarked, and its step reaches the state after
      `j + 1` slots. */
  lemma SweptStateStep(v: SpaceView, m: Heap, h: multiset<Addr>, visits: seq<Addr>, j: nat, p: Sweeping)
    requires SweepPre(v, m, h, visits) && j < |visits|
    requires SweptState(v, m, h, visits, j, p)
    ensures var x := visits[j];
            IsUsed(p.m, x) && (!p.m[x].mark ==> Releasable(p.m, Edges(p.m[x].payload.obj)) && p.v.liveSize > 0)
    ensures SweptState(v, m, h, visits, j + 1, SweepOne(p, visits[j]))
  {
    var x := visits[j];
    SweepSlotReady(v, m, h, visits, j, p);
    SweepOneKeeps(p, h, x);
    var r := SweepOne(p, x);
    assert LayoutKept(v, m, h, r);
    SweptStepTo(m, p.m, r.m, visits, j, p.v.freeHead);
  }

  /** Slot `j` of the visit list is, when its turn comes, a used slot of
      the space with the mark it had when the sweep began. */
  lemma SweepSlotReady(v: SpaceView, m: Heap, h: multiset<Addr>, visits: seq<Addr>, j: nat, p: Sweeping)
    requires j < |visits| && Distinct(visits) && Elems(visits) == UsedSet(v)
    requires forall a :: a in visits ==> IsUsed(m, a) && (!m[a].mark ==> h[a] == 0)
    requires SpaceInv(p.v, p.m) && Swept(m, p.m, Elems(visits[..j]))
    requires p.v.pages == v.pages && p.v.sizes == v.sizes
    ensures var x := visits[j];
            x in UsedSet(p.v) && IsUsed(p.m, x) && p.m[x].mark == m[x].mark && (!p.m[x].mark ==> h[x] == 0)
  {
    var x := visits[j];
    DistinctNotBefore(visits, j);
    assert x in UsedSet(v) && x !in Dead(m, Elems(visits[..j]));
    assert Dom(p.v) == Dom(v);
    PageLayout.UsedSlots(p.v, p.m);
  }

  /** What `sweep` leaves of the space's used slots: those it did not
      free. */
  lemma SweptUsedSet(v: SpaceView, m: Heap, v': SpaceView, m': Heap, s: set<Addr>)
    requires SpaceInv(v, m) && SpaceInv(v', m') && Swept(m, m', s)
    requires v'.pages == v.pages && v'.sizes == v.sizes
    ensures UsedSet(v') == UsedSet(v) - Dead(m, s) && Dom(v') == Dom(v)
  {
    assert Dom(v') == Dom(v);
    PageLayout.UsedSlots(v, m);
    PageLayout.UsedSlots(v', m');
  }

  /** The whole of `sweep`'s loop keeps the layout and the counting and
      frees exactly the unmarked used slots of the space. */
  lemma SweptAll(v: SpaceView, m: Heap, h: multiset<Addr>, visits: seq<Addr>)
    requires SweepPre(v, m, h, visits)
    ensures var r := SweptTo(v, m, visits, |visits|);
            LayoutKept(v, m, h, r) && Swept(m, r.m, UsedSet(v)) &&
            UsedSet(r.v) == UsedSet(v) - Dead(m, UsedSet(v)) && Dom(r.v) == Dom(v)
  {
    var r := SweptTo(v, m, visits, |visits|);
    SweptToInv(v, m, h, visits, |visits|);
    assert visits[..|visits|] == visits;
    assert LayoutKept(v, m, h, r) && Swept(m, r.m, Elems(visits));
    SweptUsedSet(v, m, r.v, r.m, Elems(visits));
  }

  /** What a step of `sweep` needs of its slot: a used slot, whose
      handles can be released and which is counted live when unmarked. */
  ghost predicate StepReady(p: Sweeping, x: Addr)
  {
    IsUsed(p.m, x) && (!p.m[x].mark ==> Releasable(p.m, Edges(p.m[x].payload.obj)) && p.v.liveSize > 0)
  }

  /** Every slot of the visit list is ready when its turn comes. */
  lemma SweepStepsReady(v: SpaceView, m: Heap, h: multiset<Addr>, visits: seq<Addr>)
    requires SweepPre(v, m, h, visits)
    ensures forall j :: 0 <= j < |visits| ==> StepReady(SweptTo(v, m, visits, j), visits[j])
  {
    forall j | 0 <= j < |visits|
      ensures StepReady(SweptTo(v, m, visits, j), visits[j])
    {
      SweptToInv(v, m, h, visits, j);
      SweptStateStep(v, m, h, visits, j, SweptTo(v, m, visits, j));
    }
  }

  /** `SweepStep`, for the heap the step actually leaves. */
  lemma SweptStepTo(m0: Heap, m: Heap, r: Heap, visits: seq<Addr>, j: nat, next: Ref)
    requires j < |visits| && Distinct(visits) && IsUsed(m0, visits[j])
    requires Swept(m0, m, Elems(visits[..j]))
    requires IsUsed(m, visits[j]) && m[visits[j]].mark == m0[visits[j]].mark
    requires var x := visits[j];
             (m[x].mark ==> r == m[x := WithMark(m[x], false)]) &&
             (!m[x].mark ==> Releasable(m, Edges(m[x].payload.obj)) && r == Deallocated(m, x, next))
    ensures Swept(m0, r, Elems(visits[..j + 1]))
  {
    SweepStep(m0, m, visits, j, next);
  }

  /** Sweeping adds no used slot and keeps the layout outside `s`, so a
      heap that gains only unused slots afterwards is still swept. */
  lemma SweptGrown(m0: Heap, m: Heap, m': Heap, s: set<Addr>)
    requires Swept(m0, m, s)
    requires Extends(m, m')
    ensures Swept(m0, m', s)
  {
    assert UsedAddrs(m') == UsedAddrs(m);
  }

  /** After `sweep` the live ratio is at most three quarters unless a page
      was added, and a space with pages then has a free slot. */
  lemma RoomAfterSweep(v: SpaceView, m: Heap)
    requires SpaceInv(v, m) && v.pages != [] && 4 * v.liveSize <= 3 * v.heapSize
    ensures v.free != []
  {
    assert v.sizes[0] >= 2;
    assert SlotsOf(v.sizes) >= 1;
  }

  /** A page added by `sweep` brings at least one free slot. */
  lemma RoomInAddedPage(v: SpaceView, b: Addr)
    requires v.nextPageSize >= 2
    ensures AddedPage(v, b).pages != [] && AddedPage(v, b).free != []
  {
  }
  // ----- the phase loops over a visit list -----

  /** The loop of `save_counts` over the visit list. */
  method SaveCountsOf(mem: Memory, visits: seq<Addr>)
    requires forall a :: a in visits ==> IsUsed(mem.slots, a)
    modifies mem`slots
    ensures mem.slots == HeapGraph.SaveCounts(old(mem.slots), Elems(visits))
  {
    PhasesStart(mem.slots, visits);
    var j := 0;
    while j < |visits|
      invariant j <= |visits|
      invariant [mem.slots] == [HeapGraph.SaveCounts(old(mem.slots), Elems(visits[..j]))]
    {
      SaveCountsStep(old(mem.slots), visits, j);
      mem.SaveRootCount(visits[j]);
      j := j + 1;
    }
    assert visits[..j] == visits;
  }

  /** The loop of `find_roots` over the visit list. */
  method FindRootsOf(mem: Memory, visits: seq<Addr>)
    requires forall j :: 0 <= j < |visits| ==> LowerReady(LoweredTo(mem.slots, visits, j), visits[j])
    modifies mem`slots
    ensures mem.slots == LoweredTo(old(mem.slots), visits, |visits|)
  {
    ghost var m0 := mem.slots;
    var j := 0;
    while j < |visits|
      invariant j <= |visits|
      invariant [mem.slots] == [LoweredTo(m0, visits, j)]
    {
      FindRootsAt(mem, visits[j]);
      j := j + 1;
    }
  }

  /** One slot of `find_roots`: tracing its object lowers the root count
      of each slot an edge leads to. */
  method FindRootsAt(mem: Memory, x: Addr)
    requires LowerReady(mem.slots, x)
    modifies mem`slots
    ensures mem.slots == LowerOne(old(mem.slots), x)
  {
    mem.LowerRootCounts(Edges(mem.slots[x].payload.obj));
  }

  /** The loop of `mark` over the visit list: a depth-first search from
      each visited slot whose root count is positive. */
  method MarkFrom(mem: Memory, visits: seq<Addr>)
    requires forall a :: a in visits ==> IsUsed(mem.slots, a)
    requires EdgesClosed(GraphOf(mem.slots))
    modifies mem`slots
    ensures MarkedFromSet(old(mem.slots), mem.slots, RootsAmong(old(mem.slots), Elems(visits)))
  {
    PhasesStart(mem.slots, visits);
    var j := 0;
    while j < |visits|
      invariant j <= |visits|
      invariant MarkedFromSet(old(mem.slots), mem.slots, RootsAmong(old(mem.slots), Elems(visits[..j])))
    {
      var x := visits[j];
      MarkStep(old(mem.slots), mem.slots, visits, j);
      if mem.slots[x].payload.rootCount > 0 {
        ghost var before := mem.slots;
        mem.MarkRecursively(At(x));
        MarkedFromOneMore(old(mem.slots), before, mem.slots, RootsAmong(old(mem.slots), Elems(visits[..j])), x);
      }
      j := j + 1;
    }
    assert visits[..j] == visits;
  }
}
