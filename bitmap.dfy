/**
 * The fixed-capacity allocator `GC_allocator<T>`: one block of 1024 object
 * cells with a `used` bit and a `marked` bit per cell, allocating the
 * lowest-index free cell first, and a `count_map` of handle counts per
 * object address.
 *
 * A `T*` into the block is a `Ref` whose address is the block's base address
 * plus the cell index.  A cell holds `Some(obj)` while an object is
 * constructed in it and `None` while it is raw memory.
 */
module BitmapAllocator {
  import opened Tracing
  import opened CountMaps

  /** `initial_capacity` */
  const InitialCapacity: nat := 1024

  /** The lowest index whose bit is clear, if any. */
  function FirstUnused(used: seq<bool>): (r: Option<nat>)
    ensures r.Some? ==> r.value < |used| && !used[r.value]
    ensures r.Some? ==> forall j :: 0 <= j < r.value ==> used[j]
    ensures r.None? ==> forall j :: 0 <= j < |used| ==> used[j]
  {
    if |used| == 0 then None
    else if !used[0] then Some(0)
    else match FirstUnused(used[1..])
      case None => None
      case Some(k) => Some(k + 1)
  }

  /** `destroy_`: the bits and cells after destroying the object at `ptr`.
      Null, or a cell that is not in use, is left alone. */
  function Destroyed<T>(used: seq<bool>, cells: seq<Option<T>>, base: Addr, ptr: Ref): (r: (seq<bool>, seq<Option<T>>))
    requires |cells| == |used| && (ptr.At? ==> base <= ptr.addr < base + |used|)
    ensures |r.0| == |used| && |r.1| == |cells|
    ensures ptr.Null? ==> r == (used, cells)
    ensures ptr.At? ==> !r.0[ptr.addr - base]
    ensures forall j :: 0 <= j < |used| && (ptr.Null? || j != ptr.addr - base) ==> r.0[j] == used[j] && r.1[j] == cells[j]
    ensures ptr.At? && used[ptr.addr - base] ==> r.1[ptr.addr - base].None?
    ensures ptr.At? && !used[ptr.addr - base] ==> r == (used, cells)
  {
    if ptr.Null? then (used, cells)
    else
      var i := ptr.addr - base;
      if used[i] then (used[i := false], cells[i := None]) else (used, cells)
  }

  /** Destroying twice has the same effect as destroying once. */
  lemma DestroyTwice<T>(used: seq<bool>, cells: seq<Option<T>>, base: Addr, ptr: Ref)
    requires |cells| == |used| && (ptr.At? ==> base <= ptr.addr < base + |used|)
    ensures var once := Destroyed(used, cells, base, ptr);
            Destroyed(once.0, once.1, base, ptr) == once
  {
    var once := Destroyed(used, cells, base, ptr);
    if ptr.At? {
      assert !once.0[ptr.addr - base];
    }
  }

  /** A cell is in use exactly when an object is constructed in it. */
  ghost predicate InUseHolds<T>(used: seq<bool>, cells: seq<Option<T>>)
  {
    |used| == |cells| && forall j :: 0 <= j < |used| ==> (used[j] <==> cells[j].Some?)
  }

  /** Destroying keeps the used bits and the constructed cells in step. */
  lemma DestroyedHolds<T>(used: seq<bool>, cells: seq<Option<T>>, base: Addr, ptr: Ref)
    requires InUseHolds(used, cells) && (ptr.At? ==> base <= ptr.addr < base + |used|)
    ensures var r := Destroyed(used, cells, base, ptr); InUseHolds(r.0, r.1)
  {
  }

  class GcAllocator<T> {
    /** `objects_`: the address of cell 0. */
    const base: Addr
    /** `capacity_` */
    const capacity: nat
    /** The object cells of the block. */
    const cells: array<Option<T>>
    /** `used_` */
    const used: array<bool>
    /** `marked_` */
    const marked: array<bool>
    /** `roots_` */
    const roots: CountMap<Addr>

    ghost predicate Valid()
      reads this, used, cells
    {
      cells.Length == used.Length == marked.Length == capacity &&
      used != marked &&
      InUseHolds(used[..], cells[..])
    }

    /** A pointer that is null or points into the block. */
    predicate InBlock(ptr: Ref)
    {
      ptr.At? ==> base <= ptr.addr < base + capacity
    }

    /** `GC_allocator()`: the block comes from the underlying allocator, so
        its address is a parameter here. */
    constructor(base: Addr)
      ensures this.base == base && capacity == InitialCapacity
      ensures Valid() && fresh(used) && fresh(marked) && fresh(cells) && fresh(roots)
      ensures forall j :: 0 <= j < capacity ==> !used[j] && !marked[j]
      ensures roots.container == map[]
    {
      this.base := base;
      capacity := InitialCapacity;
      cells := new Option<T>[InitialCapacity](_ => None);
      used := new bool[InitialCapacity](_ => false);
      marked := new bool[InitialCapacity](_ => false);
      roots := new CountMap();
    }

    /** `allocate_`: construct `obj` in the lowest-index cell not in use.
        With every cell in use the source fails an assertion, so some free
        cell is required. */
    method Allocate(obj: T) returns (ptr: Ref)
      requires Valid() && exists j :: 0 <= j < capacity && !used[j]
      modifies used, cells
      ensures Valid()
      ensures FirstUnused(old(used[..])).Some?
      ensures ptr == At(base + FirstUnused(old(used[..])).value)
      ensures used[..] == old(used[..])[ptr.addr - base := true]
      ensures cells[..] == old(cells[..])[ptr.addr - base := Some(obj)]
    {
      ghost var bits := used[..];
      var i := 0;
      while i < capacity
        invariant 0 <= i <= capacity
        invariant forall j :: 0 <= j < i ==> used[j]
        invariant used[..] == bits
      {
        if !used[i] {
          cells[i] := Some(obj);
          used[i] := true;
          ptr := At(base + i);
          FirstUnusedIs(bits, i);
          return;
        }
        i := i + 1;
      }
      assert false;
    }

    /** `destroy_` */
    method Destroy(ptr: Ref)
      requires Valid() && InBlock(ptr)
      modifies used, cells
      ensures Valid()
      ensures (used[..], cells[..]) == Destroyed(old(used[..]), old(cells[..]), base, ptr)
    {
      if ptr != Null {
        var index := ptr.addr - base;
        if used[index] {
          cells[index] := None;
          used[index] := false;
        }
      }
      DestroyedHolds(old(used[..]), old(cells[..]), base, ptr);
    }

    /** `mark_`: set the mark bit of the pointer's cell; null is ignored. */
    method Mark(ptr: Ref)
      requires Valid() && InBlock(ptr)
      modifies marked
      ensures Valid()
      ensures ptr.Null? ==> marked[..] == old(marked[..])
      ensures ptr.At? ==> marked[..] == old(marked[..])[ptr.addr - base := true]
    {
      if ptr != Null {
        marked[ptr.addr - base] := true;
      }
    }

    /** `clear_marks_` */
    method ClearMarks()
      requires Valid()
      modifies marked
      ensures Valid()
      ensures marked.Length == capacity
      ensures forall j :: 0 <= j < capacity ==> !marked[j]
    {
      forall j | 0 <= j < marked.Length {
        marked[j] := false;
      }
    }

    /** `inc_`: count one more handle on a non-null pointer. */
    method Inc(ptr: Ref)
      modifies roots
      ensures ptr.Null? ==> roots.container == old(roots.container)
      ensures ptr.At? ==> roots.container == Bumped(old(roots.container), ptr.addr).0
    {
      if ptr != Null {
        var _ := roots.Inc(ptr.addr);
      }
    }

    /** `dec_`: count one handle fewer on a non-null pointer. */
    method Dec(ptr: Ref)
      modifies roots
      ensures ptr.Null? ==> roots.container == old(roots.container)
      ensures ptr.At? ==> roots.container == Dropped(old(roots.container), ptr.addr).0
    {
      if ptr != Null {
        var _ := roots.Dec(ptr.addr);
      }
    }
  }

  /** The scan's result is the lowest free index. */
  lemma FirstUnusedIs(used: seq<bool>, i: nat)
    requires i < |used| && !used[i] && forall j :: 0 <= j < i ==> used[j]
    ensures FirstUnused(used) == Some(i)
  {
  }
}
