/**
 * The memory every space's pages live in: one map from slot address to slot,
 * the allocator's high-water mark, and (as ghost bookkeeping) the multiset
 * of addresses held by handles that live outside the heap.
 *
 * The slot-level operations of `Traced<T>` (the `initialize_*` writes, the
 * mark bit) and the handle-level `inc_`/`dec_` update `slots` in place.
 */
module Memory {
  import opened Tracing
  import opened Slot
  import opened HeapGraph

  /** Every handle outside the heap holds a used slot, and every used slot's
      reference count is the number of handles holding it: those outside the
      heap plus the edges from used slots. */
  ghost predicate Counted(m: Heap, h: multiset<Addr>)
  {
    (forall a {:trigger h[a]} :: a in h ==> IsUsed(m, a)) &&
    forall a {:trigger IsUsed(m, a)} :: IsUsed(m, a) ==> m[a].payload.refCount == h[a] + InEdges(GraphOf(m), UsedAddrs(m))[a]
  }

  /** Outside a collection no used slot carries a mark. */
  ghost predicate Quiescent(m: Heap)
  {
    forall a :: IsUsed(m, a) ==> !m[a].mark
  }

  /** The mark bits may go from clear to set; nothing else changes. */
  ghost predicate OnlyMarksSet(m: Heap, m': Heap)
  {
    m'.Keys == m.Keys &&
    forall a :: a in m ==>
      m'[a].payload == m[a].payload && m'[a].free == m[a].free && (m[a].mark ==> m'[a].mark)
  }

  lemma OnlyMarksSetKeepsGraph(m: Heap, m': Heap)
    requires OnlyMarksSet(m, m')
    ensures GraphOf(m') == GraphOf(m) && UsedAddrs(m') == UsedAddrs(m)
    ensures MarkedSet(m) <= MarkedSet(m') && UnmarkedUsed(m') <= UnmarkedUsed(m)
  {
  }

  lemma OnlyMarksSetTrans(m1: Heap, m2: Heap, m3: Heap)
    requires OnlyMarksSet(m1, m2) && OnlyMarksSet(m2, m3)
    ensures OnlyMarksSet(m1, m3)
  {
  }

  lemma SubsetSmaller(a: set<Addr>, b: set<Addr>, x: Addr)
    requires a <= b - {x} && x in b
    ensures |a| < |b|
  {
    assert b - {x} == a + (b - {x} - a);
  }

  /** The handles in `es` can all be released: no used slot's count would
      go below zero. */
  ghost predicate Releasable(m: Heap, es: seq<Ref>)
  {
    forall a :: a in m && m[a].payload.Used? ==> Targets(es)[a] <= m[a].payload.refCount
  }

  /** The heap `deallocate_` leaves behind: the object's destructor releases
      its handles, then the slot becomes a free cell linked to `next`. */
  ghost function Deallocated(m: Heap, x: Addr, next: Ref): Heap
    requires IsUsed(m, x) && Releasable(m, Edges(m[x].payload.obj))
  {
    var m1 := LowerRefs(m, Targets(Edges(m[x].payload.obj)));
    m1[x := AsFree(m1[x], next)]
  }

  /** Deallocating a used slot that no outside handle holds: its handles
      can be released and the counting stays exact. */
  lemma DeallocatedCounted(m: Heap, h: multiset<Addr>, x: Addr, next: Ref)
    requires Counted(m, h) && IsUsed(m, x) && h[x] == 0
    ensures Releasable(m, Edges(m[x].payload.obj))
    ensures Counted(Deallocated(m, x, next), h)
  {
    assert GraphOf(m)[x] == Edges(m[x].payload.obj);
    CountedAfterRelease(m, h, x, next);
  }

  /** Deallocating takes exactly that slot out of use; every other slot
      keeps its object, its mark, its free bit and whether it is used, and
      a slot that is not used keeps its contents. */
  lemma DeallocatedFrame(m: Heap, x: Addr, next: Ref)
    requires IsUsed(m, x) && Releasable(m, Edges(m[x].payload.obj))
    ensures var r := Deallocated(m, x, next);
            r.Keys == m.Keys &&
            r[x] == AsFree(m[x], next) &&
            UsedAddrs(r) == UsedAddrs(m) - {x} &&
            (forall a :: a in UsedAddrs(r) ==> r[a].payload.obj == m[a].payload.obj && r[a].mark == m[a].mark) &&
            (forall a :: a in m && a != x ==>
               r[a].free == m[a].free &&
               (r[a].payload.Used? <==> m[a].payload.Used?) &&
               (!m[a].payload.Used? ==> r[a].payload == m[a].payload))
  {
    ReleasedHeap(m, Targets(Edges(m[x].payload.obj)), x, next);
  }

  /** The heap after a slot's handles are released and the slot freed:
      one used slot fewer, the rest keep their objects and lose `t` from
      their counts. */
  lemma ReleasedHeap(m: Heap, t: multiset<Addr>, d: Addr, next: Ref)
    requires IsUsed(m, d)
    requires forall a :: a in m && m[a].payload.Used? ==> t[a] <= m[a].payload.refCount
    ensures var m1 := LowerRefs(m, t);
            var m2 := m1[d := AsFree(m1[d], next)];
            UsedAddrs(m2) == UsedAddrs(m) - {d} &&
            (forall a :: a in UsedAddrs(m2) ==>
               GraphOf(m2)[a] == GraphOf(m)[a] &&
               m2[a].payload.refCount == m[a].payload.refCount - t[a])
  {
  }

  /** Releasing a dead slot: its object's handles are destroyed, lowering
      the counts of the used slots they hold, and the slot is freed.  When
      no handle outside the heap holds it, the counting stays exact. */
  lemma {:induction false} CountedAfterRelease(m: Heap, h: multiset<Addr>, d: Addr, next: Ref)
    requires Counted(m, h) && IsUsed(m, d) && h[d] == 0
    ensures forall a :: IsUsed(m, a) ==> Targets(GraphOf(m)[d])[a] <= m[a].payload.refCount
    ensures var m1 := LowerRefs(m, Targets(GraphOf(m)[d]));
            Counted(m1[d := AsFree(m1[d], next)], h)
  {
    var t := Targets(GraphOf(m)[d]);
    ReleaseBound(m, h, d);
    ReleasedHeap(m, t, d, next);
    var m1 := LowerRefs(m, t);
    var m2 := m1[d := AsFree(m1[d], next)];
    ReleaseSplit(GraphOf(m), GraphOf(m2), UsedAddrs(m), d);
    var rest := InEdges(GraphOf(m2), UsedAddrs(m2));
    forall a: Addr | IsUsed(m2, a)
      ensures m2[a].payload.refCount == h[a] + rest[a]
    {
      assert a in UsedAddrs(m);
    }
    HandlesStayUsed(m, m2, h, d);
    CountedFromParts(m2, h, rest);
  }

  /** A dead slot's own edges are part of the counted in-edges, so
      releasing them cannot take a count below zero. */
  lemma ReleaseBound(m: Heap, h: multiset<Addr>, d: Addr)
    requires Counted(m, h) && IsUsed(m, d)
    ensures forall a :: IsUsed(m, a) ==> Targets(GraphOf(m)[d])[a] <= m[a].payload.refCount
  {
    var g := GraphOf(m);
    SourceTargetsIncluded(g, UsedAddrs(m), d);
    forall a: Addr | IsUsed(m, a) ensures Targets(g[d])[a] <= m[a].payload.refCount {
      assert Targets(g[d])[a] <= InEdges(g, UsedAddrs(m))[a];
    }
  }

  /** The in-edges of the used slots are the dead slot's edges plus the
      in-edges of the others. */
  lemma ReleaseSplit(g: Graph, g2: Graph, used: set<Addr>, d: Addr)
    requires used == g.Keys && d in used && g2.Keys == used - {d}
    requires forall a :: a in g2 ==> g2[a] == g[a]
    ensures InEdges(g, used) == Targets(g[d]) + InEdges(g2, used - {d})
  {
    InEdgesFrame(g2, g, used - {d});
    InEdgesRemove(g, used, d);
  }

  lemma HandlesStayUsed(m: Heap, m2: Heap, h: multiset<Addr>, d: Addr)
    requires forall a :: a in h ==> IsUsed(m, a)
    requires h[d] == 0 && UsedAddrs(m2) == UsedAddrs(m) - {d}
    ensures forall a :: a in h ==> IsUsed(m2, a)
  {
    forall a | a in h ensures IsUsed(m2, a) {
      assert a in UsedAddrs(m);
    }
  }

  lemma CountedFromParts(m: Heap, h: multiset<Addr>, rest: multiset<Addr>)
    requires forall a :: a in h ==> IsUsed(m, a)
    requires rest == InEdges(GraphOf(m), UsedAddrs(m))
    requires forall a :: IsUsed(m, a) ==> m[a].payload.refCount == h[a] + rest[a]
    ensures Counted(m, h)
  {
  }

  /** The heap after a free slot is filled with an object: one used slot
      more, whose edges are the object's; the rest gain `t` on their counts. */
  lemma ConstructedHeap(m: Heap, t: multiset<Addr>, d: Addr, obj: Value, rootCount: int)
    requires d in m && !m[d].payload.Used?
    ensures var m2 := RaiseRefs(m[d := AsUsed(obj, rootCount)], t);
            UsedAddrs(m2) == UsedAddrs(m) + {d} &&
            GraphOf(m2)[d] == Edges(obj) && m2[d].payload.refCount == t[d] &&
            (forall a :: a in UsedAddrs(m) ==>
               GraphOf(m2)[a] == GraphOf(m)[a] &&
               m2[a].payload.refCount == m[a].payload.refCount + t[a])
  {
  }

  /** Filling a free slot with an object whose handles are copies of handles
      held outside the heap keeps the counting exact. */
  lemma {:induction false} CountedAfterConstruct(m: Heap, h: multiset<Addr>, d: Addr, obj: Value, rootCount: int)
    requires Counted(m, h) && EdgesClosed(GraphOf(m))
    requires d in m && !m[d].payload.Used?
    requires forall a :: a in Targets(Edges(obj)) ==> a in h
    ensures var m1 := m[d := AsUsed(obj, rootCount)];
            Counted(RaiseRefs(m1, Targets(Edges(obj))), h) &&
            EdgesClosed(GraphOf(RaiseRefs(m1, Targets(Edges(obj)))))
  {
    var g := GraphOf(m);
    var used := UsedAddrs(m);
    var t := Targets(Edges(obj));
    ConstructedHeap(m, t, d, obj, rootCount);
    var m2 := RaiseRefs(m[d := AsUsed(obj, rootCount)], t);
    var g2 := GraphOf(m2);
    InEdgesRemove(g2, used + {d}, d);
    assert (used + {d}) - {d} == used;
    InEdgesFrame(g2, g, used);
    var total := InEdges(g2, UsedAddrs(m2));
    assert total == t + InEdges(g, used);
    assert d !in t;
    assert InEdges(g, used)[d] == 0 by {
      if InEdges(g, used)[d] != 0 {
        InEdgesSource(g, used, d);
      }
    }
    forall a: Addr | IsUsed(m2, a)
      ensures m2[a].payload.refCount == h[a] + total[a]
    {
      if a != d {
        assert a in used;
      }
    }
    ConstructedClosed(m, h, d, obj, rootCount);
  }

  /** The new object's edges are copies of outside handles, which hold used
      slots, so every edge still leads to a used slot. */
  lemma {:induction false} ConstructedClosed(m: Heap, h: multiset<Addr>, d: Addr, obj: Value, rootCount: int)
    requires Counted(m, h) && EdgesClosed(GraphOf(m))
    requires d in m && !m[d].payload.Used?
    requires forall a :: a in Targets(Edges(obj)) ==> a in h
    ensures EdgesClosed(GraphOf(RaiseRefs(m[d := AsUsed(obj, rootCount)], Targets(Edges(obj)))))
  {
    var t := Targets(Edges(obj));
    ConstructedHeap(m, t, d, obj, rootCount);
    var g2 := GraphOf(RaiseRefs(m[d := AsUsed(obj, rootCount)], t));
    forall x: Addr, e: Ref | x in g2 && e in g2[x] && e.At? ensures e.addr in g2 {
      if x == d {
        TargetsMember(Edges(obj), e.addr);
      } else {
        assert x in UsedAddrs(m);
      }
    }
  }

  /** One handle more outside the heap, to a used slot whose count goes up
      by one, keeps the counting exact. */
  lemma CountedAfterHold(m: Heap, h: multiset<Addr>, a: Addr)
    requires Counted(m, h) && IsUsed(m, a)
    ensures var m' := RaiseRefs(m, Targets([At(a)]));
            Counted(m', h + multiset{a}) && UsedAddrs(m') == UsedAddrs(m) && GraphOf(m') == GraphOf(m) &&
            m'[a].payload.refCount == m[a].payload.refCount + 1 &&
            (forall x :: x in m ==> m'[x].free == m[x].free && m'[x].mark == m[x].mark) &&
            (Quiescent(m) ==> Quiescent(m'))
  {
    TargetsSingle(At(a));
    var m' := RaiseRefs(m, Targets([At(a)]));
    assert GraphOf(m') == GraphOf(m);
  }

  /** A copy of a handle outside the heap: the count of the slot it holds
      goes up by one with the multiset of held addresses, and the counting
      stays exact.  A null handle changes nothing. */
  lemma CountedAfterAcquire(m: Heap, h: multiset<Addr>, p: Ref)
    requires Counted(m, h) && (p.At? ==> IsUsed(m, p.addr))
    ensures var m' := RaiseRefs(m, Targets([p]));
            Counted(m', h + Targets([p])) && UsedAddrs(m') == UsedAddrs(m) && GraphOf(m') == GraphOf(m) &&
            (Quiescent(m) ==> Quiescent(m'))
  {
    TargetsSingle(p);
    if p.At? {
      CountedAfterHold(m, h, p.addr);
    } else {
      assert RaiseRefs(m, multiset{}) == m;
      assert h + multiset{} == h;
    }
  }

  /** The end of a handle outside the heap: the count of the slot it held
      goes down by one with the multiset of held addresses, and the counting
      stays exact.  A null handle changes nothing. */
  lemma {:induction false} CountedAfterDrop(m: Heap, h: multiset<Addr>, p: Ref)
    requires Counted(m, h) && Targets([p]) <= h
    ensures Releasable(m, [p])
    ensures var m' := LowerRefs(m, Targets([p]));
            Counted(m', h - Targets([p])) && UsedAddrs(m') == UsedAddrs(m) && GraphOf(m') == GraphOf(m) &&
            (Quiescent(m) ==> Quiescent(m'))
  {
    TargetsSingle(p);
    if p.At? {
      assert p.addr in h;
      DroppedCounted(m, h, p.addr);
      LoweredQuiet(m, multiset{p.addr});
    } else {
      DroppedNothing(m, h);
    }
  }

  /** Lowering no count changes nothing. */
  lemma DroppedNothing(m: Heap, h: multiset<Addr>)
    ensures LowerRefs(m, multiset{}) == m && h - multiset{} == h
  {
  }

  /** Lowering counts leaves every mark as it was. */
  lemma LoweredQuiet(m: Heap, t: multiset<Addr>)
    requires forall a :: a in m && m[a].payload.Used? ==> t[a] <= m[a].payload.refCount
    ensures Quiescent(m) ==> Quiescent(LowerRefs(m, t))
  {
  }

  lemma DroppedCounted(m: Heap, h: multiset<Addr>, a: Addr)
    requires Counted(m, h) && a in h
    ensures forall x :: x in m && m[x].payload.Used? ==> multiset{a}[x] <= m[x].payload.refCount
    ensures var m' := LowerRefs(m, multiset{a});
            Counted(m', h - multiset{a}) && UsedAddrs(m') == UsedAddrs(m) && GraphOf(m') == GraphOf(m)
  {
    assert IsUsed(m, a) && m[a].payload.refCount >= 1;
    DroppedHeap(m, a);
    var m' := LowerRefs(m, multiset{a});
    var h' := h - multiset{a};
    var rest := InEdges(GraphOf(m'), UsedAddrs(m'));
    forall x | x in h' ensures IsUsed(m', x) {
      assert x in h;
    }
    forall x | IsUsed(m', x) ensures m'[x].payload.refCount == h'[x] + rest[x] {
      assert IsUsed(m, x);
    }
    CountedFromParts(m', h', rest);
  }

  /** One count fewer on the used slot `a`: the graph and the used slots
      stay as they are. */
  lemma DroppedHeap(m: Heap, a: Addr)
    requires IsUsed(m, a) && m[a].payload.refCount >= 1
    ensures forall x :: x in m && m[x].payload.Used? ==> multiset{a}[x] <= m[x].payload.refCount
    ensures var m' := LowerRefs(m, multiset{a});
            UsedAddrs(m') == UsedAddrs(m) && GraphOf(m') == GraphOf(m) &&
            forall x :: IsUsed(m', x) ==> m'[x].payload.refCount == m[x].payload.refCount - multiset{a}[x]
  {
    var m' := LowerRefs(m, multiset{a});
    assert UsedAddrs(m') == UsedAddrs(m);
    assert GraphOf(m') == GraphOf(m);
  }

  /** Raising the counts lowered by `t` gives back the heap. */
  lemma RaiseAfterLower(m: Heap, t: multiset<Addr>)
    requires forall a :: a in m && m[a].payload.Used? ==> t[a] <= m[a].payload.refCount
    ensures RaiseRefs(LowerRefs(m, t), t) == m
  {
    var r := RaiseRefs(LowerRefs(m, t), t);
    forall a | a in m ensures r[a] == m[a] {
    }
  }

  /** The heap after `operator=(const traced_ptr&)` on the handle member
      `i` of the object in slot `x`: the old target's count lowered, the
      member written, the count of `q` raised. */
  ghost function MemberAssigned(m: Heap, x: Addr, i: nat, q: Ref): Heap
    requires IsUsed(m, x) && HandleMember(m[x].payload.obj, i)
    requires Releasable(m, [m[x].payload.obj.fields[i].ptr])
  {
    var obj := m[x].payload.obj;
    var m1 := LowerRefs(m, Targets([obj.fields[i].ptr]));
    RaiseRefs(m1[x := m1[x].(payload := m1[x].payload.(obj := AssignedMember(obj, i, q)))], Targets([q]))
  }

  /** `m'` is `m` with every used slot's count moved down by `tp` and up
      by `tq`, and the object in `x` replaced by `v`; the other slots are
      as they were. */
  ghost predicate Rewritten(m: Heap, m': Heap, x: Addr, v: Value, tp: multiset<Addr>, tq: multiset<Addr>)
  {
    m'.Keys == m.Keys &&
    (forall a :: a in m && m[a].payload.Used? ==>
       tp[a] <= m[a].payload.refCount &&
       m'[a] == m[a].(payload := m[a].payload.(
                  refCount := m[a].payload.refCount - tp[a] + tq[a],
                  obj := if a == x then v else m[a].payload.obj))) &&
    forall a :: a in m && !m[a].payload.Used? ==> m'[a] == m[a]
  }

  /** Lowering the counts by `tp`, replacing the object in `x` and
      raising the counts by `tq`, slot by slot. */
  lemma RewrittenSlots(m: Heap, x: Addr, v: Value, tp: multiset<Addr>, tq: multiset<Addr>)
    requires IsUsed(m, x)
    requires forall a :: a in m && m[a].payload.Used? ==> tp[a] <= m[a].payload.refCount
    ensures var m1 := LowerRefs(m, tp);
            Rewritten(m, RaiseRefs(m1[x := m1[x].(payload := m1[x].payload.(obj := v))], tq), x, v, tp, tq)
  {
  }

  /** Each slot after a member assignment: a used slot's count moves by
      the one handle let go of and the one taken hold of, and `x` holds
      the assigned object; other slots are as they were. */
  lemma MemberAssignedSlots(m: Heap, x: Addr, i: nat, q: Ref)
    requires IsUsed(m, x) && HandleMember(m[x].payload.obj, i)
    requires Releasable(m, [m[x].payload.obj.fields[i].ptr])
    ensures Rewritten(m, MemberAssigned(m, x, i, q), x, AssignedMember(m[x].payload.obj, i, q),
                      Targets([m[x].payload.obj.fields[i].ptr]), Targets([q]))
  {
    var obj := m[x].payload.obj;
    RewrittenSlots(m, x, AssignedMember(obj, i, q), Targets([obj.fields[i].ptr]), Targets([q]));
  }

  /** A heap rewritten slot by slot as `RewrittenSlots` describes has the
      same used slots, new edges only at `x`, and every slot's kind and
      mark as before. */
  lemma RewrittenHeap(m: Heap, m': Heap, x: Addr, v: Value, tp: multiset<Addr>, tq: multiset<Addr>)
    requires IsUsed(m, x) && Rewritten(m, m', x, v, tp, tq)
    ensures UsedAddrs(m') == UsedAddrs(m)
    ensures GraphOf(m') == GraphOf(m)[x := Edges(v)]
  {
    assert UsedAddrs(m') == UsedAddrs(m);
    var g := GraphOf(m)[x := Edges(v)];
    forall a | a in GraphOf(m') ensures GraphOf(m')[a] == g[a] {
    }
  }

  /** Trading the handle `x`'s object held on `tp` for one on `tq`, where
      the new object's edges are the old ones with that one trade, keeps
      the counting exact and every edge inside the heap. */
  lemma CountedAfterRewrite(m: Heap, m': Heap, h: multiset<Addr>, x: Addr, v: Value, tp: multiset<Addr>, tq: multiset<Addr>)
    requires Counted(m, h) && EdgesClosed(GraphOf(m)) && IsUsed(m, x) && Rewritten(m, m', x, v, tp, tq)
    requires tp <= Targets(Edges(m[x].payload.obj))
    requires Targets(Edges(v)) + tp == Targets(Edges(m[x].payload.obj)) + tq
    requires forall e :: e in Edges(v) && e.At? ==> e in Edges(m[x].payload.obj) || e.addr in tq
    requires forall a :: a in tq ==> IsUsed(m, a)
    ensures Counted(m', h) && EdgesClosed(GraphOf(m'))
  {
    var g := GraphOf(m);
    var used := UsedAddrs(m);
    RewrittenHeap(m, m', x, v, tp, tq);
    var g' := GraphOf(m');
    assert g'[x] == Edges(v);
    InEdgesRemove(g, used, x);
    InEdgesRemove(g', used, x);
    InEdgesFrame(g', g, used - {x});
    var total := InEdges(g', used);
    var rest := InEdges(g, used - {x});
    var tv := Targets(Edges(v));
    var to := Targets(Edges(m[x].payload.obj));
    assert total == tv + rest;
    assert InEdges(g, used) == to + rest;
    forall a | IsUsed(m', a) ensures m'[a].payload.refCount == h[a] + total[a] {
      assert IsUsed(m, a);
      assert m[a].payload.refCount == h[a] + to[a] + rest[a];
      assert m'[a].payload.refCount == m[a].payload.refCount - tp[a] + tq[a];
      assert (tv + tp)[a] == (to + tq)[a];
    }
    forall y: Addr, e: Ref | y in g' && e in g'[y] && e.At? ensures e.addr in g' {
      if y == x && e.addr !in tq {
        assert e in g[x];
      }
    }
  }

  /** The old target of a handle member is counted by that member, so
      letting go of it leaves no count below zero. */
  lemma MemberReleasable(m: Heap, h: multiset<Addr>, x: Addr, i: nat)
    requires Counted(m, h)
    requires IsUsed(m, x) && WellFormed(m[x].payload.obj) && HandleMember(m[x].payload.obj, i)
    ensures Releasable(m, [m[x].payload.obj.fields[i].ptr])
  {
    var obj := m[x].payload.obj;
    var tp := Targets([obj.fields[i].ptr]);
    var g := GraphOf(m);
    MemberTargetIncluded(obj, i);
    SourceTargetsIncluded(g, UsedAddrs(m), x);
    forall a | a in m && m[a].payload.Used? ensures tp[a] <= m[a].payload.refCount {
      assert IsUsed(m, a);
      assert tp[a] <= Targets(g[x])[a] <= InEdges(g, UsedAddrs(m))[a];
    }
  }

  /** A member assignment keeps every slot's kind and mark, the used
      slots, and every edge except those of `x`, which become the edges of
      the assigned object. */
  lemma MemberAssignedKeeps(m: Heap, x: Addr, i: nat, q: Ref)
    requires IsUsed(m, x) && HandleMember(m[x].payload.obj, i)
    requires Releasable(m, [m[x].payload.obj.fields[i].ptr])
    ensures var m' := MemberAssigned(m, x, i, q);
            m'.Keys == m.Keys && UsedAddrs(m') == UsedAddrs(m) &&
            GraphOf(m') == GraphOf(m)[x := Edges(AssignedMember(m[x].payload.obj, i, q))] &&
            forall a :: a in m ==>
              m'[a].free == m[a].free && m'[a].mark == m[a].mark &&
              (m'[a].payload.Used? <==> m[a].payload.Used?) && (!m[a].payload.Used? ==> m'[a] == m[a])
  {
    var obj := m[x].payload.obj;
    MemberAssignedSlots(m, x, i, q);
    RewrittenHeap(m, MemberAssigned(m, x, i, q), x, AssignedMember(obj, i, q), Targets([obj.fields[i].ptr]), Targets([q]));
  }

  /** Assigning a handle member of a used object to a handle of a used
      slot keeps the counting exact and every edge inside the heap: the
      old target loses the edge it had from `x` and `q` gains one. */
  lemma CountedAfterAssign(m: Heap, h: multiset<Addr>, x: Addr, i: nat, q: Ref)
    requires Counted(m, h) && EdgesClosed(GraphOf(m))
    requires IsUsed(m, x) && WellFormed(m[x].payload.obj) && HandleMember(m[x].payload.obj, i)
    requires q.At? ==> IsUsed(m, q.addr)
    ensures Releasable(m, [m[x].payload.obj.fields[i].ptr])
    ensures var m' := MemberAssigned(m, x, i, q);
            Counted(m', h) && EdgesClosed(GraphOf(m'))
  {
    var obj := m[x].payload.obj;
    MemberReleasable(m, h, x, i);
    AssignedEdges(obj, i, q);
    TargetsSingle(q);
    MemberAssignedSlots(m, x, i, q);
    var v := AssignedMember(obj, i, q);
    var tp := Targets([obj.fields[i].ptr]);
    var tq := Targets([q]);
    CountedAfterRewrite(m, MemberAssigned(m, x, i, q), h, x, v, tp, tq);
  }

  /** A slot with an in-edge is the target of some source's edge. */
  lemma {:induction false} InEdgesSource(g: Graph, srcs: set<Addr>, a: Addr)
    requires srcs <= g.Keys && a in InEdges(g, srcs)
    ensures exists x :: x in srcs && At(a) in g[x]
    decreases srcs
  {
    var u :| u in srcs && InEdges(g, srcs) == Targets(g[u]) + InEdges(g, srcs - {u});
    if a in Targets(g[u]) {
      TargetsMember(g[u], a);
    } else {
      InEdgesSource(g, srcs - {u}, a);
    }
  }

  class Memory {
    var slots: Heap
    /** Every address at or above `top` is fresh. */
    var top: nat
    /** The addresses held by handles outside the heap. */
    ghost var handles: multiset<Addr>

    ghost predicate Valid()
      reads this
    {
      forall a :: a in slots ==> a < top
    }

    constructor()
      ensures Valid() && slots == map[] && top == 0 && handles == multiset{}
    {
      slots := map[];
      top := 0;
      handles := multiset{};
    }

    /** `allocator_.allocate(n)`: either `n` fresh slots holding arbitrary
        contents, or nothing (null). */
    method AllocatePage(n: nat) returns (page: Ref)
      requires Valid() && n > 0
      modifies this
      ensures Valid() && handles == old(handles)
      ensures page == Null ==> slots == old(slots) && top == old(top)
      ensures page.At? ==>
                page.addr == old(top) && top == old(top) + n &&
                (forall a :: a in slots <==> a in old(slots) || old(top) <= a < top) &&
                (forall a :: a in old(slots) ==> slots[a] == old(slots)[a])
    {
      var ok: bool :| true;
      if !ok {
        return Null;
      }
      var raw: Addr -> Slot :| true;
      slots := slots + map a | top <= a < top + n :: raw(a);
      page := At(top);
      top := top + n;
    }

    method InitializeHeader(a: Addr, pageSize: nat, nextPage: Ref)
      requires a in slots
      modifies this`slots
      ensures slots == old(slots)[a := AsHeader(old(slots)[a], pageSize, nextPage)]
    {
      slots := slots[a := AsHeader(slots[a], pageSize, nextPage)];
    }

    method InitializeFree(a: Addr, nextFree: Ref)
      requires a in slots
      modifies this`slots
      ensures slots == old(slots)[a := AsFree(old(slots)[a], nextFree)]
    {
      slots := slots[a := AsFree(slots[a], nextFree)];
    }

    /** `initialize_used_`: the object and the root count keep whatever the
        slot held before. */
    method InitializeUsed(a: Addr)
      requires a in slots
      modifies this`slots
      ensures slots == old(slots)[a := AsUsed(LeftoverObject(old(slots)[a]), LeftoverRootCount(old(slots)[a]))]
    {
      slots := slots[a := AsUsed(LeftoverObject(slots[a]), LeftoverRootCount(slots[a]))];
    }

    /** `inc_`: null is ignored; otherwise the held slot's count goes up.
        The test for a used slot is there only so that the new slots are
        exactly `RaiseRefs`, which leaves every other slot alone; under
        `Counted` every held address is used, so it never fails. */
    method IncRef(p: Ref)
      modifies this`slots
      ensures slots == RaiseRefs(old(slots), Targets([p]))
    {
      TargetsSingle(p);
      if p.At? && p.addr in slots && slots[p.addr].payload.Used? {
        var s := slots[p.addr];
        slots := slots[p.addr := s.(payload := s.payload.(refCount := s.payload.refCount + 1))];
      }
    }

    /** `dec_`: null is ignored; otherwise the held slot's count goes down.
        As in `IncRef`, the test for a used slot matches `LowerRefs` and
        never fails under `Counted`, where every held address is used. */
    method DecRef(p: Ref)
      requires forall a :: a in slots && slots[a].payload.Used? ==> Targets([p])[a] <= slots[a].payload.refCount
      modifies this`slots
      ensures slots == LowerRefs(old(slots), Targets([p]))
    {
      TargetsSingle(p);
      if p.At? && p.addr in slots && slots[p.addr].payload.Used? {
        var s := slots[p.addr];
        slots := slots[p.addr := s.(payload := s.payload.(refCount := s.payload.refCount - 1))];
      }
    }

    /** A new handle outside the heap (a `traced_ptr` returned by
        `allocate`) takes hold of the slot `a`. */
    method Hold(a: Addr)
      requires Valid()
      modifies this`slots, this`handles
      ensures Valid() && handles == old(handles) + multiset{a}
      ensures slots == RaiseRefs(old(slots), Targets([At(a)]))
    {
      IncRef(At(a));
      handles := handles + multiset{a};
    }

    /** A handle outside the heap takes hold of `p` (`inc_`); null is
        ignored. */
    method Acquire(p: Ref)
      modifies this`slots, this`handles
      ensures slots == RaiseRefs(old(slots), Targets([p]))
      ensures handles == old(handles) + Targets([p])
    {
      IncRef(p);
      handles := handles + Targets([p]);
    }

    /** A handle outside the heap lets go of `p` (`dec_`); null is ignored. */
    method Drop(p: Ref)
      requires Counted(slots, handles) && Targets([p]) <= handles
      modifies this`slots, this`handles
      ensures Releasable(old(slots), [p])
      ensures slots == LowerRefs(old(slots), Targets([p]))
      ensures handles == old(handles) - Targets([p])
    {
      CountedAfterDrop(slots, handles, p);
      DecRef(p);
      handles := handles - Targets([p]);
    }

    /** `operator=(const traced_ptr&)` on the handle member `i` of the
        object in slot `x`: `dec_()` on the old target, the member
        written, `inc_()` on `q`. */
    method AssignMember(x: Addr, i: nat, q: Ref)
      requires IsUsed(slots, x) && HandleMember(slots[x].payload.obj, i)
      requires Releasable(slots, [slots[x].payload.obj.fields[i].ptr])
      modifies this`slots
      ensures slots == MemberAssigned(old(slots), x, i, q)
    {
      var obj := slots[x].payload.obj;
      DecRef(obj.fields[i].ptr);
      slots := slots[x := slots[x].(payload := slots[x].payload.(obj := AssignedMember(obj, i, q)))];
      IncRef(q);
    }

    /** Copy-constructing an object's handle members, in trace order. */
    method AcquireEdges(es: seq<Ref>)
      modifies this`slots
      ensures slots == RaiseRefs(old(slots), Targets(es))
    {
      var j := 0;
      while j < |es|
        invariant j <= |es|
        invariant slots == RaiseRefs(old(slots), Targets(es[..j]))
      {
        assert es[..j + 1] == es[..j] + [es[j]];
        TargetsSnoc(es[..j], es[j]);
        RaiseRefsCompose(old(slots), Targets(es[..j]), Targets([es[j]]));
        IncRef(es[j]);
        j := j + 1;
      }
      assert es[..j] == es;
    }

    /** Placement `new` in the used slot `a`: the object is written and its
        handle members are copy-constructed, each raising the count of the
        slot it holds. */
    method Construct(a: Addr, obj: Value)
      requires a in slots && slots[a].payload.Used?
      modifies this`slots
      ensures slots == RaiseRefs(old(slots)[a := old(slots)[a].(payload := old(slots)[a].payload.(obj := obj))],
                                 Targets(Edges(obj)))
    {
      slots := slots[a := slots[a].(payload := slots[a].payload.(obj := obj))];
      AcquireEdges(Edges(obj));
    }

    /** Destroying an object's handle members, in trace order. */
    method ReleaseEdges(es: seq<Ref>)
      requires forall a :: a in slots && slots[a].payload.Used? ==> Targets(es)[a] <= slots[a].payload.refCount
      modifies this`slots
      ensures slots == LowerRefs(old(slots), Targets(es))
    {
      var j := 0;
      while j < |es|
        invariant j <= |es|
        invariant forall a :: a in old(slots) && old(slots)[a].payload.Used? ==>
                    Targets(es[..j])[a] <= old(slots)[a].payload.refCount
        invariant slots == LowerRefs(old(slots), Targets(es[..j]))
      {
        assert es[..j + 1] == es[..j] + [es[j]];
        TargetsSnoc(es[..j], es[j]);
        TargetsPrefix(es, j + 1);
        LowerRefsCompose(old(slots), Targets(es[..j]), Targets([es[j]]));
        TargetsSingle(es[j]);
        DecRef(es[j]);
        j := j + 1;
      }
      assert es[..j] == es;
    }

    /** `save_counts` for one slot: the root count starts as the reference
        count. */
    method SaveRootCount(a: Addr)
      requires IsUsed(slots, a)
      modifies this`slots
      ensures slots == old(slots)[a := old(slots)[a].(payload := old(slots)[a].payload.(rootCount := old(slots)[a].payload.refCount))]
    {
      var s := slots[a];
      slots := slots[a := s.(payload := s.payload.(rootCount := s.payload.refCount))];
    }

    /** The survivor half of `sweep` for one slot: its mark is cleared for
        the next collection. */
    method ClearMark(a: Addr)
      requires a in slots
      modifies this`slots
      ensures slots == old(slots)[a := WithMark(old(slots)[a], false)]
    {
      slots := slots[a := WithMark(slots[a], false)];
    }

    /** The root-count half of `find_roots` for one object: each non-null
        edge lowers its target's root count by one.  The targets must be
        used slots. */
    method LowerRootCounts(es: seq<Ref>)
      requires forall e :: e in es && e.At? ==> IsUsed(slots, e.addr)
      modifies this`slots
      ensures slots == LowerRoots(old(slots), Targets(es))
    {
      assert slots == LowerRoots(old(slots), Targets(es[..0]));
      var j := 0;
      while j < |es|
        invariant j <= |es|
        invariant [slots] == [LowerRoots(old(slots), Targets(es[..j]))]
      {
        LowerRootsStep(old(slots), es, j);
        if es[j].At? {
          var x := es[j].addr;
          var s := slots[x];
          slots := slots[x := s.(payload := s.payload.(rootCount := s.payload.rootCount - 1))];
        }
        j := j + 1;
      }
      assert es[..j] == es;
    }

    /** `mark_recursively_`: a depth-first search that marks a slot before
        tracing its object, and never re-traces a marked slot, so it ends on
        cycles.  It marks the slot and everything reachable from it that was
        not already marked, and leaves each newly marked slot's edges
        pointing at marked slots. */
    method MarkRecursively(p: Ref)
      requires p.At? ==> IsUsed(slots, p.addr)
      requires EdgesClosed(GraphOf(slots))
      modifies this`slots
      decreases |UnmarkedUsed(slots)|
      ensures MarkedFrom(old(slots), slots, p)
    {
      if p.At? && !slots[p.addr].mark {
        ghost var g := GraphOf(slots);
        ghost var m0 := slots;
        var x := p.addr;
        slots := slots[x := WithMark(slots[x], true)];
        var es := Edges(slots[x].payload.obj);
        DfsStart(m0, slots, x);
        var j := 0;
        while j < |es|
          invariant DfsInvariant(m0, slots, x, es, j)
          {
          ghost var before := slots;
          DfsBeforeChild(m0, slots, x, es, j);
          MarkRecursively(es[j]);
          DfsAfterChild(m0, before, slots, x, es, j);
          j := j + 1;
        }
        DfsDone(m0, slots, x, es);
      }
    }
  }

  /** One more edge of `find_roots`: a null edge changes nothing, an edge to
      a used slot lowers that slot's root count by one. */
  lemma LowerRootsStep(m: Heap, es: seq<Ref>, j: nat)
    requires j < |es| && forall e :: e in es && e.At? ==> IsUsed(m, e.addr)
    ensures var c := LowerRoots(m, Targets(es[..j]));
            (es[j].Null? ==> LowerRoots(m, Targets(es[..j + 1])) == c) &&
            (es[j].At? ==>
               IsUsed(c, es[j].addr) &&
               LowerRoots(m, Targets(es[..j + 1])) ==
                 c[es[j].addr := c[es[j].addr].(payload := c[es[j].addr].payload.(rootCount := c[es[j].addr].payload.rootCount - 1))])
  {
    var pre := es[..j];
    var t := Targets(pre);
    assert es[..j + 1] == pre + [es[j]];
    TargetsSnoc(pre, es[j]);
    TargetsSingle(es[j]);
    if es[j].At? {
      assert es[j] in es;
      assert Targets(es[..j + 1]) == t + multiset{es[j].addr};
      LowerRootsOneMore(m, t, es[j].addr);
    } else {
      assert Targets(es[..j + 1]) == t;
    }
  }

  /** What one call of `mark_recursively_` on `p` achieves, from heap `m`
      to heap `m'`. */
  ghost predicate MarkedFrom(m: Heap, m': Heap, p: Ref)
  {
    OnlyMarksSet(m, m') &&
    (p.Null? ==> m' == m) &&
    (p.At? && IsUsed(m, p.addr) ==>
      p.addr in MarkedSet(m') &&
      MarkedSet(m') <= MarkedSet(m) + Reach(GraphOf(m), {p.addr})) &&
    forall w: Addr, e: Ref ::
      (w in MarkedSet(m') - MarkedSet(m) && e in GraphOf(m')[w] && e.At?) ==> e.addr in MarkedSet(m')
  }

  /** The state of the search while it visits the children of `x`, of
      which the first `j` are done; `m0` is the heap at entry. */
  ghost predicate DfsInvariant(m0: Heap, m: Heap, x: Addr, es: seq<Ref>, j: nat)
  {
    var g := GraphOf(m0);
    IsUsed(m0, x) && !m0[x].mark && es == g[x] && EdgesClosed(g) &&
    j <= |es| &&
    OnlyMarksSet(m0, m) &&
    x in MarkedSet(m) &&
    UnmarkedUsed(m) <= UnmarkedUsed(m0) - {x} &&
    MarkedSet(m) <= MarkedSet(m0) + Reach(g, {x}) &&
    (forall k :: 0 <= k < j && es[k].At? ==> es[k].addr in MarkedSet(m)) &&
    forall w: Addr, e: Ref ::
      (w in MarkedSet(m) - MarkedSet(m0) && w != x && e in g[w] && e.At?) ==> e.addr in MarkedSet(m)
  }

  lemma DfsStart(m0: Heap, m: Heap, x: Addr)
    requires IsUsed(m0, x) && !m0[x].mark && EdgesClosed(GraphOf(m0))
    requires m == m0[x := WithMark(m0[x], true)]
    ensures DfsInvariant(m0, m, x, Edges(m[x].payload.obj), 0)
  {
    var g := GraphOf(m0);
    assert OnlyMarksSet(m0, m);
    OnlyMarksSetKeepsGraph(m0, m);
    ReachHasRoots(g, {x});
  }

  /** The next child is null or used, and the search has shrunk the set of
      unmarked used slots since entry. */
  lemma DfsBeforeChild(m0: Heap, m: Heap, x: Addr, es: seq<Ref>, j: nat)
    requires DfsInvariant(m0, m, x, es, j) && j < |es|
    ensures es[j].At? ==> IsUsed(m, es[j].addr)
    ensures EdgesClosed(GraphOf(m))
    ensures |UnmarkedUsed(m)| < |UnmarkedUsed(m0)|
  {
    var g := GraphOf(m0);
    OnlyMarksSetKeepsGraph(m0, m);
    SubsetSmaller(UnmarkedUsed(m), UnmarkedUsed(m0), x);
    assert es[j] in g[x];
  }

  lemma DfsAfterChild(m0: Heap, m: Heap, m': Heap, x: Addr, es: seq<Ref>, j: nat)
    requires DfsInvariant(m0, m, x, es, j) && j < |es|
    requires MarkedFrom(m, m', es[j])
    ensures DfsInvariant(m0, m', x, es, j + 1)
  {
    var g := GraphOf(m0);
    OnlyMarksSetKeepsGraph(m0, m);
    OnlyMarksSetKeepsGraph(m, m');
    OnlyMarksSetTrans(m0, m, m');
    OnlyMarksSetKeepsGraph(m0, m');
    if es[j].At? {
      assert es[j] in g[x];
      ReachHasRoots(g, {x});
      ReachStep(g, {x}, x, es[j].addr);
      ReachFromReached(g, {x}, es[j].addr);
    }
  }

  lemma DfsDone(m0: Heap, m: Heap, x: Addr, es: seq<Ref>)
    requires DfsInvariant(m0, m, x, es, |es|)
    ensures MarkedFrom(m0, m, At(x))
  {
    var g := GraphOf(m0);
    OnlyMarksSetKeepsGraph(m0, m);
    forall w: Addr, e: Ref | w in MarkedSet(m) - MarkedSet(m0) && e in GraphOf(m)[w] && e.At?
      ensures e.addr in MarkedSet(m)
    {
      if w == x {
        var k :| 0 <= k < |es| && es[k] == e;
      }
    }
  }

  /** What a sequence of `mark_recursively_` calls on the slots `roots`
      achieves: each used root is marked, nothing outside what was already
      marked or is reachable from the roots, and each newly marked slot's
      edges point at marked slots. */
  ghost predicate MarkedFromSet(m: Heap, m': Heap, roots: set<Addr>)
  {
    OnlyMarksSet(m, m') &&
    roots * UsedAddrs(m) <= MarkedSet(m') &&
    MarkedSet(m') <= MarkedSet(m) + Reach(GraphOf(m), roots) &&
    forall w: Addr, e: Ref ::
      (w in MarkedSet(m') - MarkedSet(m) && e in GraphOf(m')[w] && e.At?) ==> e.addr in MarkedSet(m')
  }

  lemma MarkedFromNothing(m: Heap)
    ensures MarkedFromSet(m, m, {})
  {
  }

  /** One more root searched from. */
  lemma MarkedFromOneMore(m1: Heap, m2: Heap, m3: Heap, roots: set<Addr>, x: Addr)
    requires MarkedFromSet(m1, m2, roots) && MarkedFrom(m2, m3, At(x)) && IsUsed(m1, x)
    ensures MarkedFromSet(m1, m3, roots + {x})
  {
    var g := GraphOf(m1);
    OnlyMarksSetKeepsGraph(m1, m2);
    OnlyMarksSetKeepsGraph(m2, m3);
    OnlyMarksSetTrans(m1, m2, m3);
    ReachMonotone(g, roots, roots + {x});
    ReachMonotone(g, {x}, roots + {x});
  }

  /** Phases run space after space: the searches of two spaces compose. */
  lemma MarkedFromUnion(m1: Heap, m2: Heap, m3: Heap, r1: set<Addr>, r2: set<Addr>)
    requires MarkedFromSet(m1, m2, r1) && MarkedFromSet(m2, m3, r2)
    ensures MarkedFromSet(m1, m3, r1 + r2)
  {
    var g := GraphOf(m1);
    OnlyMarksSetKeepsGraph(m1, m2);
    OnlyMarksSetKeepsGraph(m2, m3);
    OnlyMarksSetTrans(m1, m2, m3);
    ReachMonotone(g, r1, r1 + r2);
    ReachMonotone(g, r2, r1 + r2);
  }

  /** Starting with no marks, searching from used roots marks exactly the
      slots reachable from them. */
  lemma MarkedExactlyReach(m: Heap, m': Heap, roots: set<Addr>)
    requires MarkedFromSet(m, m', roots) && MarkedSet(m) == {} && roots <= UsedAddrs(m)
    ensures MarkedSet(m') == Reach(GraphOf(m), roots)
  {
    var g := GraphOf(m);
    OnlyMarksSetKeepsGraph(m, m');
    var marked := MarkedSet(m');
    assert Closed(g, marked);
    ClosedContainsReach(g, roots, marked);
  }

  /** Changes that keep every used slot's object and reference count keep
      the graph and the counting. */
  lemma CountedFrame(m: Heap, m': Heap, h: multiset<Addr>)
    requires UsedAddrs(m') == UsedAddrs(m)
    requires forall a :: IsUsed(m, a) ==>
               m'[a].payload.obj == m[a].payload.obj && m'[a].payload.refCount == m[a].payload.refCount
    ensures GraphOf(m') == GraphOf(m)
    ensures Counted(m, h) ==> Counted(m', h)
  {
    assert GraphOf(m') == GraphOf(m);
  }

  /** A heap that only gains slots that are not used keeps its graph, its
      counting and its quiescence. */
  lemma GainedSlots(m: Heap, m': Heap, h: multiset<Addr>)
    requires Extends(m, m')
    ensures UsedAddrs(m') == UsedAddrs(m) && GraphOf(m') == GraphOf(m)
    ensures Counted(m, h) ==> Counted(m', h)
    ensures Quiescent(m) ==> Quiescent(m')
  {
    assert UsedAddrs(m') == UsedAddrs(m);
    assert GraphOf(m') == GraphOf(m);
  }
}
