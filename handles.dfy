/**
 * The managed handle `traced_ptr<T>`: a raw pointer into the space of its
 * type, whose constructors, assignments and destructor keep every object's
 * reference count equal to the number of live handles holding it.
 *
 * The space is the set-based one (`Collector<T>` of the earlier design, the
 * same code as `TypedSpace<T>`).  The handles alive outside the heap are
 * the ghost multiset `mem.handles`: a handle is live when its target is
 * counted there, and every operation below moves exactly its own targets in
 * or out of it, so `SetSpace.Valid()` (which includes the counting
 * invariant) holds across any sequence of them.
 */
module Handles {
  import opened Tracing
  import opened Slot
  import opened HeapGraph
  import opened Memory
  import opened SetArena
  import Arena

  class Handle {
    /** `collector()`: the one space of the handle's type. */
    const space: SetSpace
    /** `ptr_` */
    var ptr: Ref

    /** The handle is one of those counted in `mem.handles`. */
    ghost predicate Live()
      reads this, space, space.mem
    {
      space.Valid() && Targets([ptr]) <= space.mem.handles
    }

    /** `traced_ptr()`: null, touching no count. */
    constructor Empty(space: SetSpace)
      ensures this.space == space && ptr == Null
      ensures Targets([ptr]) == multiset{}
    {
      this.space := space;
      ptr := Null;
      new;
      TargetsSingle(Null);
    }

    /** The member initialiser and `inc_()` of the allocating constructor,
        once `allocate_` has returned `p`. */
    constructor Adopt(space: SetSpace, p: Ref)
      requires space.Valid() && (p.At? ==> p.addr in space.objects)
      modifies space.mem`slots, space.mem`handles
      ensures this.space == space && ptr == p && space.Valid()
      ensures space.mem.slots == RaiseRefs(old(space.mem.slots), Targets([p]))
      ensures space.mem.handles == old(space.mem.handles) + Targets([p])
    {
      this.space := space;
      ptr := p;
      new;
      space.Inc(p);
    }

    /** `traced_ptr(const traced_ptr&)`: the same address, one count more. */
    constructor Copy(other: Handle)
      requires other.Live()
      modifies other.space.mem`slots, other.space.mem`handles
      ensures space == other.space && ptr == other.ptr && Live() && other.Live()
      ensures space.mem.slots == RaiseRefs(old(other.space.mem.slots), Targets([ptr]))
      ensures space.mem.handles == old(other.space.mem.handles) + Targets([ptr])
    {
      space := other.space;
      ptr := other.ptr;
      new;
      HeldIsTracked(space, ptr);
      space.Inc(ptr);
    }

    /** `traced_ptr(traced_ptr&&)` as evidently intended: this handle starts
        null and swaps with `other`, which is left null.  No count changes,
        and both handles are counted afterwards: the new one in place of
        `other`, which now holds nothing. */
    constructor Move(other: Handle)
      requires other.Live()
      modifies other`ptr
      ensures space == other.space && ptr == old(other.ptr) && other.ptr == Null
      ensures Live() && other.Live()
    {
      space := other.space;
      ptr := Null;
      new;
      ptr, other.ptr := other.ptr, ptr;
      TargetsSingle(Null);
    }

    /** `traced_ptr(traced_ptr&&)` as written: `ptr_` is never initialised,
        so the swap hands `other` whatever `garbage` the new handle's storage
        held. */
    constructor MoveAsWritten(other: Handle, garbage: Ref)
      modifies other`ptr
      ensures space == other.space && ptr == old(other.ptr) && other.ptr == garbage
    {
      space := other.space;
      ptr := garbage;
      new;
      ptr, other.ptr := other.ptr, ptr;
    }

    /** `operator=(const traced_ptr&)`: `dec_()` on the old target, then
        `inc_()` on the new one.  Assigning a handle to itself, or any
        handle with the same target, leaves the heap as it was. */
    method CopyAssign(other: Handle)
      requires Live() && other.space == space
      requires other.ptr.At? ==> other.ptr.addr in space.objects
      modifies this`ptr, space.mem`slots, space.mem`handles
      ensures ptr == old(other.ptr) && Live()
      ensures Releasable(old(space.mem.slots), [old(ptr)])
      ensures space.mem.slots == RaiseRefs(LowerRefs(old(space.mem.slots), Targets([old(ptr)])), Targets([ptr]))
      ensures space.mem.handles == old(space.mem.handles) - Targets([old(ptr)]) + Targets([ptr])
      ensures old(ptr) == old(other.ptr) ==> space.mem.slots == old(space.mem.slots)
      ensures old(ptr) == old(other.ptr) ==> space.mem.handles == old(space.mem.handles)
    {
      ghost var m0 := space.mem.slots;
      ghost var h0 := space.mem.handles;
      ghost var t := Targets([ptr]);
      space.Dec(ptr);
      ptr := other.ptr;
      space.Inc(ptr);
      Reassigned(h0, t, Targets([ptr]));
      if old(ptr) == ptr {
        RaiseAfterLower(m0, t);
      }
    }

    /** `operator=(traced_ptr&&)`: the two raw addresses are swapped and no
        count changes. */
    method MoveAssign(other: Handle)
      modifies this`ptr, other`ptr
      ensures ptr == old(other.ptr) && other.ptr == old(ptr)
    {
      var mine := ptr;
      ptr := other.ptr;
      other.ptr := mine;
    }

    /** `~traced_ptr()`: `dec_()` on the target. */
    method Destroy()
      requires Live()
      modifies space.mem`slots, space.mem`handles
      ensures space.Valid()
      ensures Releasable(old(space.mem.slots), [ptr])
      ensures space.mem.slots == LowerRefs(old(space.mem.slots), Targets([ptr]))
      ensures space.mem.handles == old(space.mem.handles) - Targets([ptr])
    {
      space.Dec(ptr);
    }
  }

  /** The target of a live handle is a tracked object. */
  lemma HeldIsTracked(space: SetSpace, p: Ref)
    requires space.Valid() && Targets([p]) <= space.mem.handles
    ensures p.At? ==> p.addr in space.objects
  {
    TargetsSingle(p);
    if p.At? {
      assert p.addr in space.mem.handles;
    }
  }

  /** The live handles after one of them lets go of `t` and takes hold of
      `u`: `u` is among them, and taking hold of what it let go of gives
      back the handles it started from. */
  lemma Reassigned(h: multiset<Addr>, t: multiset<Addr>, u: multiset<Addr>)
    requires t <= h
    ensures u <= h - t + u
    ensures t == u ==> h - t + u == h
  {
  }

  /** `make_traced`: allocate the object and hold it with a new handle
      whose count is 1.  Null when the allocator fails (`bad_alloc`), with
      nothing changed. */
  method MakeTraced(space: SetSpace, obj: Value) returns (r: Handle?)
    requires space.Valid() && forall a :: a in Targets(Edges(obj)) ==> a in space.mem.handles
    modifies space, space.mem
    ensures space.Valid()
    ensures r == null ==> space.objects == old(space.objects) && space.mem.slots == old(space.mem.slots)
    ensures r == null ==> space.mem.handles == old(space.mem.handles)
    ensures r != null ==> fresh(r) && r.space == space && r.ptr.At? && r.Live()
    ensures r != null ==> space.objects == old(space.objects) + {r.ptr.addr}
    ensures r != null ==> HeldNew(old(space.mem.slots), old(space.mem.handles), space.mem.slots, space.mem.handles, r.ptr.addr, obj)
  {
    ghost var m0 := space.mem.slots;
    var p := space.Allocate(obj);
    if p.Null? {
      return null;
    }
    TargetsSingle(p);
    HeldAfterTook(m0, space.mem.slots, space.mem.handles, p.addr, obj);
    r := new Handle.Adopt(space, p);
  }

  /** After `make_traced`: `a` was not in use in `m0` and now holds `obj`
      with a count of 1, the one new handle; every earlier object is still
      there with its object. */
  ghost predicate HeldNew(m0: Heap, h0: multiset<Addr>, m: Heap, h: multiset<Addr>, a: Addr, obj: Value)
  {
    !IsUsed(m0, a) && IsUsed(m, a) && m[a].payload.obj == obj && m[a].payload.refCount == 1 &&
    h == h0 + multiset{a} && UsedAddrs(m) == UsedAddrs(m0) + {a} && Arena.Survives(m0, m, UsedAddrs(m0))
  }

  /** The new handle raises the new object's count from 0 to 1. */
  lemma HeldAfterTook(m0: Heap, m: Heap, h: multiset<Addr>, a: Addr, obj: Value)
    requires Arena.Took(m0, m, a, obj)
    ensures HeldNew(m0, h, RaiseRefs(m, multiset{a}), h + multiset{a}, a, obj)
  {
    var m' := RaiseRefs(m, multiset{a});
    assert UsedAddrs(m') == UsedAddrs(m);
  }

  /** A live handle holding `g` that the counts do not include breaks the
      counting invariant: with the as-written move constructor, a
      moved-from handle that happens to hold a used slot is such a handle. */
  lemma MovedFromGarbageUncounted(m: Heap, h: multiset<Addr>, g: Addr)
    requires Counted(m, h) && IsUsed(m, g)
    ensures !Counted(m, h + multiset{g})
  {
  }

  /** ... and when that moved-from handle is destroyed, its `dec_()` lowers
      a count no live handle released, which breaks the invariant again. */
  lemma DestroyedGarbageUncounted(m: Heap, h: multiset<Addr>, g: Addr)
    requires Counted(m, h) && IsUsed(m, g) && m[g].payload.refCount >= 1
    ensures !Counted(LowerRefs(m, multiset{g}), h)
  {
    DroppedHeap(m, g);
  }

  /** With the corrected move constructor the new handle takes over the
      count of the moved-from one, which is left null: the live handles,
      and so the counting invariant, are as before. */
  lemma MovedCounted(m: Heap, h: multiset<Addr>, p: Ref)
    requires Counted(m, h) && Targets([p]) <= h
    ensures var live := h - Targets([p]) + Targets([Null]) + Targets([p]);
            live == h && Counted(m, live)
  {
    TargetsSingle(Null);
  }
}
