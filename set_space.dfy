/**
 * The set-based arena (`TypedSpace<T>` of the earlier design): every object
 * gets a cell of its own from the underlying allocator, and the space keeps
 * the addresses of its live objects in an unordered set, `objects_`.  The
 * four collection phases are loops over that set.
 *
 * The space here owns the whole `Memory`: its objects are exactly the used
 * slots.  A freed cell goes back to the allocator; the model keeps it as a
 * free slot that nothing links to.
 */
module SetArena {
  import opened Tracing
  import opened Slot
  import opened HeapGraph
  import opened Memory
  import opened PageLayout
  import opened Phases
  import opened Collection
  import Arena

  /** The slot `d` of `s` after `Traced`'s constructor has run in it with
      the object `obj`: the count zeroed, the mark cleared, the object
      written, and the handles it copies counted.  The root count keeps
      whatever the cell held. */
  ghost function Built(s: Heap, d: Addr, obj: Value): Heap
    requires d in s
  {
    var s1 := s[d := AsUsed(LeftoverObject(s[d]), LeftoverRootCount(s[d]))];
    RaiseRefs(s1[d := s1[d].(payload := s1[d].payload.(obj := obj))], Targets(Edges(obj)))
  }

  /** The cell the allocator added, seen as a free slot next to the old
      heap: `Built` on the raw cell is construction in that free slot. */
  lemma BuiltOnFree(m0: Heap, s: Heap, d: Addr, obj: Value)
    requires d !in m0 && d in s && (forall a :: a in s ==> a in m0 || a == d)
    requires forall a :: a in m0 ==> a in s && s[a] == m0[a]
    ensures var mf := m0[d := AsFree(s[d], Null)];
            Extends(m0, mf) && d in mf && !mf[d].payload.Used? && mf.Keys == s.Keys &&
            Built(s, d, obj) == RaiseRefs(mf[d := AsUsed(obj, LeftoverRootCount(s[d]))], Targets(Edges(obj)))
  {
    var rc := LeftoverRootCount(s[d]);
    var mf := m0[d := AsFree(s[d], Null)];
    var s1 := s[d := AsUsed(LeftoverObject(s[d]), rc)];
    assert s1[d := s1[d].(payload := s1[d].payload.(obj := obj))] == mf[d := AsUsed(obj, rc)];
  }

  /** Constructing `obj` in the free slot `d` of `mf`, a heap with the
      objects of `m0`, takes `d` into use and keeps every other object;
      `d` is held by none of the handles the constructor copies. */
  lemma TookFree(m0: Heap, mf: Heap, h: multiset<Addr>, d: Addr, obj: Value, rc: int)
    requires Extends(m0, mf) && d !in m0 && d in mf && Counted(m0, h)
    requires forall a :: a in Targets(Edges(obj)) ==> a in h
    ensures Arena.Took(m0, RaiseRefs(mf[d := AsUsed(obj, rc)], Targets(Edges(obj))), d, obj)
  {
    var t := Targets(Edges(obj));
    var m := RaiseRefs(mf[d := AsUsed(obj, rc)], t);
    assert d !in t;
    GainedSlots(m0, mf, h);
    ConstructedHeap(mf, t, d, obj, rc);
    forall a | a in UsedAddrs(m0) ensures IsUsed(m, a) && m[a].payload.obj == m0[a].payload.obj {
      assert mf[a] == m0[a];
    }
  }

  /** What `allocate_` keeps and adds: building in a cell the allocator
      added to `m0` keeps the counts exact, the edges inside the heap and
      every mark clear, and takes that one cell into use. */
  lemma BuiltFresh(m0: Heap, s: Heap, h: multiset<Addr>, d: Addr, obj: Value)
    requires Counted(m0, h) && EdgesClosed(GraphOf(m0)) && Quiescent(m0)
    requires d !in m0 && d in s && (forall a :: a in s ==> a in m0 || a == d)
    requires forall a :: a in m0 ==> a in s && s[a] == m0[a]
    requires forall a :: a in Targets(Edges(obj)) ==> a in h
    ensures var m := Built(s, d, obj);
            Counted(m, h) && EdgesClosed(GraphOf(m)) && Quiescent(m) &&
            Arena.Took(m0, m, d, obj) && m.Keys == s.Keys
  {
    var rc := LeftoverRootCount(s[d]);
    var mf := m0[d := AsFree(s[d], Null)];
    BuiltOnFree(m0, s, d, obj);
    GainedSlots(m0, mf, h);
    CountedAfterConstruct(mf, h, d, obj, rc);
    TookFree(m0, mf, h, d, obj, rc);
    QuiescentAfterConstruct(mf, d, obj, rc);
  }

  /** A freshly constructed object carries no mark, and raising counts
      leaves the marks alone. */
  lemma QuiescentAfterConstruct(m: Heap, d: Addr, obj: Value, rc: int)
    requires Quiescent(m)
    ensures Quiescent(RaiseRefs(m[d := AsUsed(obj, rc)], Targets(Edges(obj))))
  {
    var m1 := m[d := AsUsed(obj, rc)];
    var m2 := RaiseRefs(m1, Targets(Edges(obj)));
    forall a | IsUsed(m2, a) ensures !m2[a].mark {
      assert m2[a].mark == m1[a].mark;
    }
  }

  /** Phases 1 and 2 of a collection of the lone space: the used slots,
      the graph, the objects and the counting stay as they are, no slot is
      marked, and the slots `mark` searches from are the held ones. */
  lemma RootsFoundAlone(m0: Heap, h: multiset<Addr>)
    requires Counted(m0, h) && EdgesClosed(GraphOf(m0)) && Quiescent(m0)
    ensures var u := UsedAddrs(m0);
            var m1 := HeapGraph.SaveCounts(m0, u);
            UsedAddrs(m1) == u && GraphOf(m1) == GraphOf(m0) &&
            var m2 := LowerRoots(m1, InEdges(GraphOf(m1), u));
            UsedAddrs(m2) == u && GraphOf(m2) == GraphOf(m0) && MarkedSet(m2) == {} &&
            RootsAmong(m2, u) == Held(h) && Held(h) <= u && Counted(m2, h) &&
            forall a :: IsUsed(m2, a) ==> m2[a].payload.obj == m0[a].payload.obj
  {
    var u := UsedAddrs(m0);
    var m1 := HeapGraph.SaveCounts(m0, u);
    SameExceptRootsAndMarksGraph(m0, m1);
    RootsAreHeld(m0, h);
    var m2 := LowerRoots(m1, InEdges(GraphOf(m1), u));
    LowerRootsKeepsGraph(m1, InEdges(GraphOf(m1), u));
    CountedFrame(m0, m2, h);
    assert MarkedSet(m2) == {};
  }

  /** Phase 3 of a collection of the lone space: the marked slots are those
      reachable from the held ones, and every unmarked one is held by no
      handle outside the heap. */
  lemma MarkedAlone(m0: Heap, h: multiset<Addr>, m2: Heap, m3: Heap)
    requires UsedAddrs(m2) == UsedAddrs(m0) && GraphOf(m2) == GraphOf(m0) && EdgesClosed(GraphOf(m0))
    requires MarkedSet(m2) == {} && Held(h) <= UsedAddrs(m2) && Counted(m2, h)
    requires forall a :: IsUsed(m2, a) ==> m2[a].payload.obj == m0[a].payload.obj
    requires MarkedFromSet(m2, m3, Held(h))
    ensures MarkedSet(m3) == Reach(GraphOf(m0), Held(h))
    ensures UsedAddrs(m3) == UsedAddrs(m0) && GraphOf(m3) == GraphOf(m0) && Counted(m3, h)
    ensures Closed(GraphOf(m3), MarkedSet(m3)) && EdgesClosed(GraphOf(m3))
    ensures forall a :: IsUsed(m3, a) ==> m3[a].payload.obj == m0[a].payload.obj
    ensures forall a :: IsUsed(m3, a) && !m3[a].mark ==> h[a] == 0
  {
    MarkedExactlyReach(m2, m3, Held(h));
    OnlyMarksSetKeepsGraph(m2, m3);
    CountedFrame(m2, m3, h);
    ReachIsClosed(GraphOf(m0), Held(h));
    ReachHasRoots(GraphOf(m0), Held(h));
    forall a | IsUsed(m3, a) && !m3[a].mark ensures h[a] == 0 {
      assert a !in MarkedSet(m3);
      assert a !in Held(h);
    }
  }

  /** Phase 4 of a collection of the lone space: what is left in use is
      what was reachable, with its object. */
  lemma SweptAlone(m0: Heap, h: multiset<Addr>, m3: Heap, m4: Heap)
    requires MarkedSet(m3) == Reach(GraphOf(m0), Held(h)) && GraphOf(m3) == GraphOf(m0)
    requires Closed(GraphOf(m3), MarkedSet(m3)) && EdgesClosed(GraphOf(m3))
    requires forall a :: IsUsed(m3, a) ==> m3[a].payload.obj == m0[a].payload.obj
    requires Swept(m3, m4, UsedAddrs(m3))
    ensures UsedAddrs(m4) == Reach(GraphOf(m0), Held(h))
    ensures EdgesClosed(GraphOf(m4)) && Quiescent(m4)
    ensures Arena.Survives(m0, m4, UsedAddrs(m4))
  {
    SweptEverything(m3, m4);
    forall a | a in UsedAddrs(m4) ensures IsUsed(m0, a) && m4[a].payload.obj == m0[a].payload.obj {
      assert IsUsed(m3, a);
    }
  }

  /** A member assignment on a tracked object, to a tracked target or
      null, keeps what `Valid` asks of the heap: the same slots and used
      slots, exact counts, closed edges and no marks. */
  lemma {:induction false} AssignedValid(m: Heap, h: multiset<Addr>, x: Addr, i: nat, q: Ref)
    requires Counted(m, h) && EdgesClosed(GraphOf(m)) && Quiescent(m)
    requires IsUsed(m, x) && WellFormed(m[x].payload.obj) && HandleMember(m[x].payload.obj, i)
    requires q.At? ==> IsUsed(m, q.addr)
    ensures Releasable(m, [m[x].payload.obj.fields[i].ptr])
    ensures var m' := MemberAssigned(m, x, i, q);
            m'.Keys == m.Keys && UsedAddrs(m') == UsedAddrs(m) &&
            Counted(m', h) && EdgesClosed(GraphOf(m')) && Quiescent(m')
  {
    CountedAfterAssign(m, h, x, i, q);
    MemberAssignedKeeps(m, x, i, q);
  }

  class SetSpace {
    const mem: Memory
    /** `objects_` */
    var objects: set<Addr>

    /** The tracked objects are exactly the used slots. */
    ghost predicate Owned()
      reads this, mem
    {
      mem.Valid() && objects == UsedAddrs(mem.slots)
    }

    /** Between operations: the counts are exact, every edge leads to a
        tracked object, and no mark is set. */
    ghost predicate Valid()
      reads this, mem
    {
      Owned() && Counted(mem.slots, mem.handles) && EdgesClosed(GraphOf(mem.slots)) && Quiescent(mem.slots)
    }

    /** A space over memory with nothing in it yet. */
    constructor(mem: Memory)
      requires mem.Valid() && mem.slots == map[] && mem.handles == multiset{}
      ensures this.mem == mem && objects == {} && Valid()
    {
      this.mem := mem;
      objects := {};
      new;
      assert UsedAddrs(mem.slots) == {};
      assert InEdges(GraphOf(mem.slots), {}) == multiset{};
    }

    /** `allocate_`: one fresh cell from the underlying allocator, the
        object constructed in it, and its address tracked.  Null when the
        allocator has nothing (`bad_alloc`).  The handles the constructor
        copies are held by handles outside the heap. */
    method Allocate(obj: Value) returns (p: Ref)
      requires Valid() && forall a :: a in Targets(Edges(obj)) ==> a in mem.handles
      modifies this`objects, mem
      ensures Valid() && mem.handles == old(mem.handles)
      ensures p.Null? ==> objects == old(objects) && mem.slots == old(mem.slots)
      ensures p.At? ==> objects == old(objects) + {p.addr} && Arena.Took(old(mem.slots), mem.slots, p.addr, obj)
    {
      ghost var m0 := mem.slots;
      p := mem.AllocatePage(1);
      if p == Null {
        return;
      }
      assert p.addr !in m0;
      BuildIn(p.addr, obj, m0);
    }

    /** The rest of `allocate_` once the allocator has added the cell `d`
        to the heap `m0`: `initialize_used_`, the constructor, and the
        insertion into `objects_`. */
    method BuildIn(d: Addr, obj: Value, ghost m0: Heap)
      requires mem.Valid() && objects == UsedAddrs(m0)
      requires Counted(m0, mem.handles) && EdgesClosed(GraphOf(m0)) && Quiescent(m0)
      requires d !in m0 && d in mem.slots && (forall a :: a in mem.slots ==> a in m0 || a == d)
      requires forall a :: a in m0 ==> a in mem.slots && mem.slots[a] == m0[a]
      requires forall a :: a in Targets(Edges(obj)) ==> a in mem.handles
      modifies this`objects, mem`slots
      ensures Valid() && objects == old(objects) + {d} && Arena.Took(m0, mem.slots, d, obj)
    {
      BuiltFresh(m0, mem.slots, mem.handles, d, obj);
      ConstructIn(d, obj);
      objects := objects + {d};
    }

    /** `initialize_used_` and placement `new` in the cell `d`. */
    method ConstructIn(d: Addr, obj: Value)
      requires d in mem.slots
      modifies mem`slots
      ensures mem.slots == Built(old(mem.slots), d, obj)
    {
      mem.InitializeUsed(d);
      mem.Construct(d, obj);
    }

    /** `deallocate_`: the address leaves the set, the object's destructor
        releases its handles, and the cell goes back to the allocator.  No
        handle outside the heap may still hold it. */
    method Deallocate(x: Addr)
      requires Owned() && x in objects && Counted(mem.slots, mem.handles) && mem.handles[x] == 0
      modifies this`objects, mem`slots
      ensures Releasable(old(mem.slots), Edges(old(mem.slots)[x].payload.obj))
      ensures mem.slots == Deallocated(old(mem.slots), x, Null)
      ensures objects == old(objects) - {x}
      ensures Owned() && Counted(mem.slots, mem.handles)
    {
      DeallocatedCounted(mem.slots, mem.handles, x, Null);
      DeallocatedFrame(mem.slots, x, Null);
      FreeCell(x);
      objects := objects - {x};
    }

    /** The object's destructor and the return of its cell. */
    method FreeCell(x: Addr)
      requires IsUsed(mem.slots, x) && Releasable(mem.slots, Edges(mem.slots[x].payload.obj))
      modifies mem`slots
      ensures mem.slots == Deallocated(old(mem.slots), x, Null)
    {
      mem.ReleaseEdges(Edges(mem.slots[x].payload.obj));
      mem.InitializeFree(x, Null);
    }

    /** `inc_`, for a handle outside the heap that takes hold of `p`: the
        count of a non-null target goes up by one. */
    method Inc(p: Ref)
      requires Valid() && (p.At? ==> p.addr in objects)
      modifies mem`slots, mem`handles
      ensures Valid()
      ensures mem.slots == RaiseRefs(old(mem.slots), Targets([p]))
      ensures mem.handles == old(mem.handles) + Targets([p])
    {
      CountedAfterAcquire(mem.slots, mem.handles, p);
      mem.Acquire(p);
    }

    /** `dec_`, for a handle outside the heap that lets go of `p`: the
        count of a non-null target goes down by one. */
    method Dec(p: Ref)
      requires Valid() && Targets([p]) <= mem.handles
      modifies mem`slots, mem`handles
      ensures Valid()
      ensures Releasable(old(mem.slots), [p])
      ensures mem.slots == LowerRefs(old(mem.slots), Targets([p]))
      ensures mem.handles == old(mem.handles) - Targets([p])
    {
      CountedAfterDrop(mem.slots, mem.handles, p);
      mem.Drop(p);
    }

    /** `operator=(const traced_ptr&)` on the handle member `i` of the
        tracked object `x`, given a handle holding `q`: the old target's
        count goes down, the member now holds `q`, and the count of `q`
        goes up.  The counting stays exact and every edge still leads to a
        tracked object; the tracked objects and the handles outside the
        heap are as before. */
    method AssignMember(x: Addr, i: nat, q: Ref)
      requires Valid() && x in objects
      requires WellFormed(mem.slots[x].payload.obj) && HandleMember(mem.slots[x].payload.obj, i)
      requires q.At? ==> q.addr in objects
      modifies mem`slots
      ensures Valid()
      ensures Releasable(old(mem.slots), [old(mem.slots)[x].payload.obj.fields[i].ptr])
      ensures mem.slots == MemberAssigned(old(mem.slots), x, i, q)
    {
      AssignedValid(mem.slots, mem.handles, x, i, q);
      mem.AssignMember(x, i, q);
    }

    /** The order a range-for over `objects_` visits: each tracked address
        once. */
    method Snapshot() returns (visits: seq<Addr>)
      ensures Distinct(visits) && Elems(visits) == objects
    {
      visits := [];
      var rest := objects;
      while rest != {}
        invariant rest !! Elems(visits) && rest + Elems(visits) == objects
        invariant Distinct(visits)
        decreases |rest|
      {
        var x :| x in rest;
        assert Elems(visits + [x]) == Elems(visits) + {x};
        visits := visits + [x];
        rest := rest - {x};
      }
    }

    /** `save_counts_`: each tracked object's root count becomes its
        reference count. */
    method SaveCounts()
      requires Owned()
      modifies mem`slots
      ensures mem.slots == HeapGraph.SaveCounts(old(mem.slots), objects)
    {
      var visits := Snapshot();
      SaveCountsOf(mem, visits);
    }

    /** `find_roots_`: every non-null edge out of a tracked object lowers
        its target's root count by one.  Edges lead to tracked objects. */
    method FindRoots()
      requires Owned() && EdgesClosed(GraphOf(mem.slots))
      modifies mem`slots
      ensures mem.slots == LowerRoots(old(mem.slots), InEdges(GraphOf(old(mem.slots)), objects))
    {
      var visits := Snapshot();
      LoweredAll(mem.slots, visits);
      FindRootsOf(mem, visits);
    }

    /** `mark_`: a depth-first search from every tracked object whose root
        count is positive. */
    method Mark()
      requires Owned() && EdgesClosed(GraphOf(mem.slots))
      modifies mem`slots
      ensures MarkedFromSet(old(mem.slots), mem.slots, RootsAmong(old(mem.slots), objects))
    {
      var visits := Snapshot();
      MarkFrom(mem, visits);
    }

    /** `sweep_`: every unmarked tracked object is deallocated and every
        marked one has its mark cleared.  The loop runs over the addresses
        tracked when it starts.  No unmarked object may be held by a handle
        outside the heap. */
    method Sweep()
      requires Owned() && Counted(mem.slots, mem.handles)
      requires forall a :: a in objects && !mem.slots[a].mark ==> mem.handles[a] == 0
      modifies this`objects, mem`slots
      ensures Owned() && Counted(mem.slots, mem.handles)
      ensures Swept(old(mem.slots), mem.slots, old(objects))
      ensures objects == old(objects) - Dead(old(mem.slots), old(objects))
    {
      var visits := Snapshot();
      ghost var m0 := mem.slots;
      PhasesStart(m0, visits);
      var j := 0;
      while j < |visits|
        invariant j <= |visits|
        invariant Owned() && Counted(mem.slots, mem.handles)
        invariant Swept(m0, mem.slots, Elems(visits[..j]))
      {
        SweepAt(m0, visits, j);
        j := j + 1;
      }
      assert visits[..j] == visits;
      assert Dead(m0, Elems(visits)) == Dead(m0, UsedAddrs(m0));
    }

    /** One object of `sweep_`. */
    method SweepAt(ghost m0: Heap, visits: seq<Addr>, j: nat)
      requires j < |visits| && Distinct(visits) && IsUsed(m0, visits[j])
      requires forall a :: IsUsed(m0, a) && !m0[a].mark ==> mem.handles[a] == 0
      requires Owned() && Counted(mem.slots, mem.handles) && Swept(m0, mem.slots, Elems(visits[..j]))
      modifies this`objects, mem`slots
      ensures Owned() && Counted(mem.slots, mem.handles) && Swept(m0, mem.slots, Elems(visits[..j + 1]))
    {
      var x := visits[j];
      ghost var m := mem.slots;
      SweepStep(m0, m, visits, j, Null);
      if mem.slots[x].mark {
        ClearedCounted(m, mem.handles, x);
        mem.ClearMark(x);
        assert UsedAddrs(mem.slots) == UsedAddrs(m);
      } else {
        Deallocate(x);
      }
      SweptStepTo(m0, m, mem.slots, visits, j, Null);
    }

    /** A collection by a collector with this one space registered: the
        four phases in order.  Afterwards the tracked objects are exactly
        those reachable from handles outside the heap, each still holding
        its object. */
    method Collect()
      requires Valid()
      modifies this`objects, mem`slots
      ensures Valid()
      ensures objects == Reach(GraphOf(old(mem.slots)), Held(mem.handles))
      ensures Arena.Survives(old(mem.slots), mem.slots, objects)
    {
      ghost var m0 := mem.slots;
      MarkPhases();
      ghost var m3 := mem.slots;
      Sweep();
      SweptAlone(m0, mem.handles, m3, mem.slots);
    }

    /** Phases 1 to 3 of `Collect`: the marked objects are those reachable
        from handles outside the heap, and nothing else has changed. */
    method MarkPhases()
      requires Valid()
      modifies mem`slots
      ensures Owned() && Counted(mem.slots, mem.handles)
      ensures MarkedSet(mem.slots) == Reach(GraphOf(old(mem.slots)), Held(mem.handles))
      ensures GraphOf(mem.slots) == GraphOf(old(mem.slots))
      ensures Closed(GraphOf(mem.slots), MarkedSet(mem.slots)) && EdgesClosed(GraphOf(mem.slots))
      ensures forall a :: IsUsed(mem.slots, a) ==> mem.slots[a].payload.obj == old(mem.slots)[a].payload.obj
      ensures forall a :: a in objects && !mem.slots[a].mark ==> mem.handles[a] == 0
    {
      ghost var m0 := mem.slots;
      RootsFoundAlone(m0, mem.handles);
      SaveCounts();
      FindRoots();
      ghost var m2 := mem.slots;
      Mark();
      MarkedAlone(m0, mem.handles, m2, mem.slots);
    }
  }
}
