/**
 * The test program's singly linked list: `node<int>` holds `first_` and a
 * `traced_ptr` member `rest_`, and `cons` allocates one node with
 * `make_traced`.  The program builds a three-node list, makes the last
 * node's `rest_` point back at the head, and collects while the head's
 * handle is alive; here the handle is then destroyed and a second
 * collection run, which reclaims the cycle that counting alone never
 * would.  The node's `first_` is an `int` whose value plays no part.
 */
module LinkedList {
  import opened Tracing
  import opened Slot
  import opened HeapGraph
  import opened Memory
  import opened SetArena
  import opened Handles
  import opened Collection
  import Arena

  /** A `node<int>` whose `rest_` holds `rest`; its registered trace visits
      `first_`, then `rest_`. */
  function Node(rest: Ref): Value
  {
    Record(UserT("node", true), [Scalar(Int), Handle(rest)])
  }

  /** A node's one edge is its `rest_`, member 1, and assigning that member
      gives the node with the new `rest_`. */
  lemma NodeEdges(rest: Ref, q: Ref)
    ensures WellFormed(Node(rest)) && Edges(Node(rest)) == [rest]
    ensures HandleMember(Node(rest), 1) && AssignedMember(Node(rest), 1, q) == Node(q)
  {
    var fs := [Scalar(Int), Handle(rest)];
    assert fs[1..] == [Handle(rest)] && fs[1..][1..] == [];
    assert TraceEach(fs[1..]) == Trace(Handle(rest)) + TraceEach([]);
    assert TraceEach(fs) == Trace(Scalar(Int)) + TraceEach(fs[1..]);
  }

  /** What the `rest_` of the `i`th node of the list `xs` holds. */
  function Rest(xs: seq<Addr>, i: nat): Ref
    requires i < |xs|
  {
    if i + 1 < |xs| then At(xs[i + 1]) else Null
  }

  /** The handle on the list `xs`: null for the empty list. */
  function Head(xs: seq<Addr>): Ref
  {
    if xs == [] then Null else At(xs[0])
  }

  /** The heap holds the list `xs` of distinct nodes, each node's `rest_`
      the next, the last null; the nodes are every tracked object and the
      one outside handle holds the head. */
  ghost predicate ListAt(m: Heap, o: set<Addr>, h: multiset<Addr>, xs: seq<Addr>)
  {
    o == (set x | x in xs) && h == Targets([Head(xs)]) &&
    (forall i, j :: 0 <= i < j < |xs| ==> xs[i] != xs[j]) &&
    (forall i :: 0 <= i < |xs| ==> IsUsed(m, xs[i]) && m[xs[i]].payload.obj == Node(Rest(xs, i)))
  }

  /** An empty space holds the empty list. */
  lemma EmptyList(m: Heap)
    ensures ListAt(m, {}, multiset{}, [])
  {
    TargetsSingle(Null);
  }

  /** The list of three spelled out. */
  lemma ListOfThree(m: Heap, o: set<Addr>, h: multiset<Addr>, a5: Addr, a6: Addr, a7: Addr)
    requires ListAt(m, o, h, [a5, a6, a7])
    ensures o == {a5, a6, a7} && UsedAddrs(m) >= o && h == multiset{a5}
    ensures a5 != a6 && a6 != a7 && a7 != a5
    ensures m[a5].payload.obj == Node(At(a6)) && m[a6].payload.obj == Node(At(a7)) && m[a7].payload.obj == Node(Null)
  {
    var xs := [a5, a6, a7];
    TargetsSingle(At(a5));
    assert xs[0] != xs[1] && xs[1] != xs[2] && xs[0] != xs[2];
    assert IsUsed(m, xs[0]) && IsUsed(m, xs[1]) && IsUsed(m, xs[2]);
  }

  /** The list built by three `cons` calls, written out. */
  lemma Spelled(a5: Addr, a6: Addr, a7: Addr)
    ensures [a5] + ([a6] + ([a7] + [])) == [a5, a6, a7]
  {
  }

  /** The heap and handles after a handle `p` was given up and `q` taken:
      every earlier object kept and, unless `q` is null, a new object `obj`
      at `q`. */
  ghost predicate HandedOver(m0: Heap, o0: set<Addr>, h0: multiset<Addr>, m: Heap, o: set<Addr>, h: multiset<Addr>,
                             p: Ref, q: Ref, obj: Value)
  {
    h == h0 - Targets([p]) + Targets([q]) && Arena.Survives(m0, m, o0) &&
    (q.Null? ==> o == o0) &&
    (q.At? ==> q.addr !in o0 && o == o0 + {q.addr} && IsUsed(m, q.addr) && m[q.addr].payload.obj == obj)
  }

  /** Lowering counts keeps every object where it is. */
  lemma KeepsObjects(m0: Heap, m1: Heap, t: multiset<Addr>, s: set<Addr>)
    requires Arena.Survives(m0, m1, s)
    requires forall a :: a in m1 && m1[a].payload.Used? ==> t[a] <= m1[a].payload.refCount
    ensures Arena.Survives(m0, LowerRefs(m1, t), s)
  {
    var m2 := LowerRefs(m1, t);
    forall a | a in s
      ensures IsUsed(m2, a) && m2[a].payload.obj == m0[a].payload.obj
    {
      assert IsUsed(m1, a);
    }
  }

  /** A failed `make_traced`, then the handle `p` destroyed, leaves the heap
      `HandedOver` describes. */
  lemma HandedOverNone(m0: Heap, o0: set<Addr>, h0: multiset<Addr>, m1: Heap, h1: multiset<Addr>,
                       m2: Heap, o2: set<Addr>, h2: multiset<Addr>, p: Ref, obj: Value)
    requires o0 == UsedAddrs(m0) && o2 == UsedAddrs(m2) && Targets([p]) <= h0
    requires m1 == m0 && h1 == h0
    requires Releasable(m1, [p]) && m2 == LowerRefs(m1, Targets([p])) && h2 == h1 - Targets([p])
    ensures HandedOver(m0, o0, h0, m2, o2, h2, p, Null, obj)
  {
    TargetsSingle(Null);
    assert UsedAddrs(m2) == UsedAddrs(m1);
    Arena.SurvivesSelf(m1, UsedAddrs(m1));
    KeepsObjects(m0, m1, Targets([p]), UsedAddrs(m0));
  }

  /** `make_traced` of `obj` at `a`, then the handle `p` destroyed, leaves
      the heap `HandedOver` describes. */
  lemma {:induction false} HandedOverNew(m0: Heap, o0: set<Addr>, h0: multiset<Addr>, m1: Heap, h1: multiset<Addr>,
                      m2: Heap, o2: set<Addr>, h2: multiset<Addr>, p: Ref, a: Addr, obj: Value)
    requires o0 == UsedAddrs(m0) && o2 == UsedAddrs(m2) && Targets([p]) <= h0
    requires HeldNew(m0, h0, m1, h1, a, obj)
    requires Releasable(m1, [p]) && m2 == LowerRefs(m1, Targets([p])) && h2 == h1 - Targets([p])
    ensures HandedOver(m0, o0, h0, m2, o2, h2, p, At(a), obj)
  {
    var t := Targets([p]);
    TargetsSingle(At(a));
    TradedHandles(h0, t, multiset{a});
    assert UsedAddrs(m2) == UsedAddrs(m1);
    Arena.SurvivesSelf(m1, {a});
    KeepsObjects(m1, m1, t, {a});
    KeepsObjects(m0, m1, t, UsedAddrs(m0));
  }

  /** Taking hold of `s` and then letting go of `t`, which was already
      held, is letting go of `t` and then taking hold of `s`. */
  lemma TradedHandles(h: multiset<Addr>, t: multiset<Addr>, s: multiset<Addr>)
    requires t <= h
    ensures h + s - t == h - t + s
  {
  }

  /** `make_traced` of `obj`, then the handle `p` destroyed, leaves the heap
      `HandedOver` describes. */
  lemma HandedOverAfter(m0: Heap, o0: set<Addr>, h0: multiset<Addr>, m1: Heap, h1: multiset<Addr>,
                        m2: Heap, o2: set<Addr>, h2: multiset<Addr>, p: Ref, q: Ref, obj: Value)
    requires o0 == UsedAddrs(m0) && o2 == UsedAddrs(m2) && Targets([p]) <= h0
    requires q.Null? ==> m1 == m0 && h1 == h0
    requires q.At? ==> HeldNew(m0, h0, m1, h1, q.addr, obj)
    requires Releasable(m1, [p]) && m2 == LowerRefs(m1, Targets([p])) && h2 == h1 - Targets([p])
    ensures HandedOver(m0, o0, h0, m2, o2, h2, p, q, obj)
  {
    if q.Null? {
      HandedOverNone(m0, o0, h0, m1, h1, m2, o2, h2, p, obj);
    } else {
      HandedOverNew(m0, o0, h0, m1, h1, m2, o2, h2, p, q.addr, obj);
    }
  }

  /** `make_traced` of an object whose one edge is a copy of `rest`, then
      the by-value `rest` destroyed: the object's member is what now holds
      what `rest` held.  Null when the allocation fails, with `rest`
      destroyed all the same. */
  method MakeFrom(space: SetSpace, rest: Handle, obj: Value) returns (r: Handle?)
    requires space.Valid() && rest.space == space && rest.Live() && Edges(obj) == [rest.ptr]
    modifies space, space.mem
    ensures space.Valid()
    ensures r != null ==> r.space == space && r.ptr.At? && r.Live()
    ensures HandedOver(old(space.mem.slots), old(space.objects), old(space.mem.handles),
                       space.mem.slots, space.objects, space.mem.handles, rest.ptr, if r == null then Null else r.ptr, obj)
  {
    TargetsSingle(rest.ptr);
    ghost var m0, o0, h0 := space.mem.slots, space.objects, space.mem.handles;
    assert o0 == UsedAddrs(m0);
    r := MakeTraced(space, obj);
    ghost var m1, h1 := space.mem.slots, space.mem.handles;
    ghost var q := if r == null then Null else r.ptr;
    rest.Destroy();
    assert space.objects == UsedAddrs(space.mem.slots);
    HandedOverAfter(m0, o0, h0, m1, h1, space.mem.slots, space.objects, space.mem.handles, rest.ptr, q, obj);
  }

  /** `cons(first, rest)`: a node holding a copy of `rest`, the rest of
      the list, made with `make_traced`; `rest` is passed by value and
      destroyed on return. */
  method Cons(space: SetSpace, rest: Handle) returns (r: Handle?)
    requires space.Valid() && rest.space == space && rest.Live()
    modifies space, space.mem
    ensures space.Valid()
    ensures r != null ==> r.space == space && r.ptr.At? && r.Live()
    ensures HandedOver(old(space.mem.slots), old(space.objects), old(space.mem.handles),
                       space.mem.slots, space.objects, space.mem.handles, rest.ptr, if r == null then Null else r.ptr,
                       Node(rest.ptr))
  {
    NodeEdges(rest.ptr, Null);
    r := MakeFrom(space, rest, Node(rest.ptr));
  }

  /** `cons` onto the list `xs`: the new node at `a` heads the list. */
  lemma ConsStep(m: Heap, o: set<Addr>, h: multiset<Addr>, xs: seq<Addr>, m': Heap, o': set<Addr>, h': multiset<Addr>, a: Addr)
    requires ListAt(m, o, h, xs) && HandedOver(m, o, h, m', o', h', Head(xs), At(a), Node(Head(xs)))
    ensures ListAt(m', o', h', [a] + xs)
  {
    var ys := [a] + xs;
    TargetsSingle(Head(xs));
    TargetsSingle(At(a));
    assert h' == Targets([Head(ys)]);
    assert o' == set x | x in ys;
    forall i | 0 <= i < |ys|
      ensures IsUsed(m', ys[i]) && m'[ys[i]].payload.obj == Node(Rest(ys, i))
    {
      if i > 0 {
        assert ys[i] == xs[i - 1] && Rest(ys, i) == Rest(xs, i - 1);
      }
    }
  }

  /** `cons` onto the list `xs` held by `rest`. */
  method Push(space: SetSpace, rest: Handle, ghost xs: seq<Addr>) returns (r: Handle?)
    requires space.Valid() && rest.space == space && rest.Live() && rest.ptr == Head(xs)
    requires ListAt(space.mem.slots, space.objects, space.mem.handles, xs)
    modifies space, space.mem
    ensures space.Valid()
    ensures r != null ==> r.space == space && r.Live() && r.ptr.At? && r.ptr == Head([r.ptr.addr] + xs) &&
                          ListAt(space.mem.slots, space.objects, space.mem.handles, [r.ptr.addr] + xs)
  {
    ghost var m, o, h := space.mem.slots, space.objects, space.mem.handles;
    r := Cons(space, rest);
    if r != null {
      ConsStep(m, o, h, xs, space.mem.slots, space.objects, space.mem.handles, r.ptr.addr);
    }
  }

  /** `cons(5, cons(6, cons(7, nullptr)))` in an empty space; null when an
      allocation fails. */
  method BuildList(space: SetSpace) returns (c: Handle?, a5: Addr, a6: Addr, a7: Addr)
    requires space.Valid() && space.objects == {} && space.mem.handles == multiset{}
    modifies space, space.mem
    ensures space.Valid()
    ensures c != null ==> c.space == space && c.Live() && c.ptr == At(a5) &&
                          ListAt(space.mem.slots, space.objects, space.mem.handles, [a5, a6, a7])
  {
    a5, a6, a7 := 0, 0, 0;
    var nil := new Handle.Empty(space);
    EmptyList(space.mem.slots);
    ghost var xs: seq<Addr> := [];
    var c7 := Push(space, nil, xs);
    if c7 == null {
      return null, a5, a6, a7;
    }
    a7, xs := c7.ptr.addr, [c7.ptr.addr] + xs;
    var c6 := Push(space, c7, xs);
    if c6 == null {
      return null, a5, a6, a7;
    }
    a6, xs := c6.ptr.addr, [c6.ptr.addr] + xs;
    c := Push(space, c6, xs);
    if c != null {
      a5, xs := c.ptr.addr, [c.ptr.addr] + xs;
      Spelled(a5, a6, a7);
    }
  }

  /** Three used slots each linked to the next, the last to the first. */
  ghost predicate Cycle(g: Graph, a: Addr, b: Addr, c: Addr)
  {
    g.Keys == {a, b, c} && g[a] == [At(b)] && g[b] == [At(c)] && g[c] == [At(a)]
  }

  /** The list `a5`, `a6`, `a7` with the last `rest_` assigned the head is a
      cycle. */
  lemma ListClosed(m: Heap, m': Heap, a5: Addr, a6: Addr, a7: Addr)
    requires UsedAddrs(m) == {a5, a6, a7} && a5 != a6 && a6 != a7 && a7 != a5
    requires m[a5].payload.obj == Node(At(a6)) && m[a6].payload.obj == Node(At(a7)) && m[a7].payload.obj == Node(Null)
    requires GraphOf(m') == GraphOf(m)[a7 := Edges(AssignedMember(m[a7].payload.obj, 1, At(a5)))]
    ensures Cycle(GraphOf(m'), a5, a6, a7)
  {
    NodeEdges(At(a6), Null);
    NodeEdges(At(a7), Null);
    NodeEdges(Null, At(a5));
    NodeEdges(At(a5), Null);
  }

  /** `c->rest()->rest()->rest() = c` on the three-node list held by `c`
      alone: the list becomes a cycle. */
  method CloseCycle(space: SetSpace, c: Handle, a5: Addr, a6: Addr, a7: Addr)
    requires space.Valid() && c.space == space && c.Live() && c.ptr == At(a5)
    requires ListAt(space.mem.slots, space.objects, space.mem.handles, [a5, a6, a7])
    modifies space.mem`slots
    ensures space.Valid() && c.Live() && space.mem.handles == multiset{a5}
    ensures space.objects == {a5, a6, a7} && Cycle(GraphOf(space.mem.slots), a5, a6, a7)
    ensures a5 != a6 && a6 != a7 && a7 != a5
  {
    ListOfThree(space.mem.slots, space.objects, space.mem.handles, a5, a6, a7);
    ghost var m := space.mem.slots;
    NodeEdges(Null, At(a5));
    space.AssignMember(a7, 1, c.ptr);
    MemberAssignedKeeps(m, a7, 1, c.ptr);
    ListClosed(m, space.mem.slots, a5, a6, a7);
  }

  /** Every node of the cycle is reachable from any one of them. */
  lemma CycleReach(g: Graph, a: Addr, b: Addr, c: Addr)
    requires Cycle(g, a, b, c)
    ensures Reach(g, {a}) == {a, b, c}
  {
    assert IsPath(g, [a]);
    assert IsPath(g, [a, b]);
    assert IsPath(g, [a, b, c]);
  }

  /** One handle holds one object. */
  lemma HeldOne(a: Addr)
    ensures Held(multiset{a}) == {a}
  {
    assert a in multiset{a};
  }

  /** With one handle on a node of a cycle, the whole cycle is reachable. */
  lemma CycleKept(g: Graph, h: multiset<Addr>, a: Addr, b: Addr, c: Addr)
    requires Cycle(g, a, b, c) && h == multiset{a}
    ensures Reach(g, Held(h)) == {a, b, c}
  {
    HeldOne(a);
    CycleReach(g, a, b, c);
  }

  /** A heap whose used slots keep their objects has the same graph. */
  lemma SameGraph(m: Heap, m': Heap)
    requires UsedAddrs(m') == UsedAddrs(m) && Arena.Survives(m, m', UsedAddrs(m))
    ensures GraphOf(m') == GraphOf(m)
  {
    forall a | a in UsedAddrs(m)
      ensures GraphOf(m')[a] == GraphOf(m)[a]
    {
      assert IsUsed(m, a) && IsUsed(m', a);
    }
  }

  /** A collection from the one handle on a node of a cycle of three keeps
      the whole cycle as it was. */
  lemma CycleSurvives(m: Heap, m': Heap, h: multiset<Addr>, o: set<Addr>, a5: Addr, a6: Addr, a7: Addr)
    requires Cycle(GraphOf(m), a5, a6, a7) && h == multiset{a5}
    requires o == Reach(GraphOf(m), Held(h)) && Arena.Survives(m, m', o) && o == UsedAddrs(m')
    ensures o == {a5, a6, a7} && Cycle(GraphOf(m'), a5, a6, a7)
  {
    CycleKept(GraphOf(m), h, a5, a6, a7);
    SameGraph(m, m');
  }

  /** A collection while `c`, the one handle, holds a node of a cycle of
      three: it keeps every node. */
  method CollectLive(space: SetSpace, c: Handle, a5: Addr, a6: Addr, a7: Addr) returns (kept: set<Addr>)
    requires space.Valid() && c.space == space && c.Live() && c.ptr == At(a5)
    requires space.objects == {a5, a6, a7} && space.mem.handles == multiset{a5}
    requires Cycle(GraphOf(space.mem.slots), a5, a6, a7)
    modifies space`objects, space.mem`slots
    ensures space.Valid() && c.Live() && space.mem.handles == multiset{a5}
    ensures space.objects == {a5, a6, a7} && Cycle(GraphOf(space.mem.slots), a5, a6, a7)
    ensures kept == {a5, a6, a7}
  {
    ghost var m := space.mem.slots;
    space.Collect();
    CycleSurvives(m, space.mem.slots, space.mem.handles, space.objects, a5, a6, a7);
    kept := space.objects;
  }

  /** Each node of a cycle of three distinct nodes has exactly one
      in-edge. */
  lemma {:induction false} CycleInEdges(g: Graph, a: Addr, b: Addr, c: Addr)
    requires Cycle(g, a, b, c) && a != b && b != c && c != a
    ensures var ie := InEdges(g, {a, b, c}); ie[a] == 1 && ie[b] == 1 && ie[c] == 1
  {
    var used := {a, b, c};
    var rest1 := used - {a};
    var rest2 := rest1 - {b};
    var ie2 := InEdges(g, rest2);
    var ie1 := InEdges(g, rest1);
    assert ie2 == multiset{a} by {
      InEdgesRemove(g, rest2, c);
      assert rest2 - {c} == {};
      assert InEdges(g, {}) == multiset{};
      TargetsSingle(At(a));
    }
    assert ie1 == multiset{c} + ie2 by {
      InEdgesRemove(g, rest1, b);
      TargetsSingle(At(c));
    }
    assert InEdges(g, used) == multiset{b} + ie1 by {
      InEdgesRemove(g, used, a);
      TargetsSingle(At(b));
    }
  }

  /** With no handle left outside the heap, each node of a cycle of three
      distinct nodes still has a count of one, the edge from its
      predecessor: counting alone would never free it. */
  lemma CycleCounts(m: Heap, a: Addr, b: Addr, c: Addr)
    requires Counted(m, multiset{}) && Cycle(GraphOf(m), a, b, c)
    requires a != b && b != c && c != a
    ensures m[a].payload.refCount == 1 && m[b].payload.refCount == 1 && m[c].payload.refCount == 1
  {
    assert UsedAddrs(m) == {a, b, c};
    CycleInEdges(GraphOf(m), a, b, c);
    assert IsUsed(m, a) && IsUsed(m, b) && IsUsed(m, c);
  }

  /** Lowering counts keeps the graph. */
  lemma LoweredGraph(m: Heap, t: multiset<Addr>)
    requires forall a :: a in m && m[a].payload.Used? ==> t[a] <= m[a].payload.refCount
    ensures GraphOf(LowerRefs(m, t)) == GraphOf(m)
  {
    var m' := LowerRefs(m, t);
    assert UsedAddrs(m') == UsedAddrs(m);
    Arena.SurvivesSelf(m, UsedAddrs(m));
    KeepsObjects(m, m, t, UsedAddrs(m));
    SameGraph(m, m');
  }

  /** The cycle after its one outside handle, on `a5`, is destroyed: no
      handle is left, the graph is as it was, and each node keeps a count
      of one. */
  lemma CycleDropped(m: Heap, m': Heap, h: multiset<Addr>, h': multiset<Addr>, p: Ref, a5: Addr, a6: Addr, a7: Addr)
    requires Cycle(GraphOf(m), a5, a6, a7) && a5 != a6 && a6 != a7 && a7 != a5
    requires h == multiset{a5} && p == At(a5)
    requires Releasable(m, [p]) && m' == LowerRefs(m, Targets([p])) && h' == h - Targets([p])
    requires Counted(m', h')
    ensures h' == multiset{} && Cycle(GraphOf(m'), a5, a6, a7)
    ensures m'[a5].payload.refCount == 1 && m'[a6].payload.refCount == 1 && m'[a7].payload.refCount == 1
  {
    TargetsSingle(p);
    LoweredGraph(m, Targets([p]));
    CycleCounts(m', a5, a6, a7);
  }

  /** Nothing is reachable from no handle at all. */
  lemma NothingHeld(g: Graph)
    ensures Reach(g, Held(multiset{})) == {}
  {
    assert Held(multiset{}) == {};
  }

  /** A collection with no handle left frees everything. */
  lemma NothingLeft(m: Heap, h: multiset<Addr>, o: set<Addr>)
    requires h == multiset{} && o == Reach(GraphOf(m), Held(h))
    ensures o == {}
  {
    NothingHeld(GraphOf(m));
  }

  /** `c` destroyed: each node of the cycle keeps a count of one, and the
      next collection frees all three. */
  method DropHead(space: SetSpace, c: Handle, a5: Addr, a6: Addr, a7: Addr) returns (counts: seq<nat>, left: set<Addr>)
    requires space.Valid() && c.space == space && c.Live() && c.ptr == At(a5)
    requires a5 != a6 && a6 != a7 && a7 != a5
    requires space.mem.handles == multiset{a5} && Cycle(GraphOf(space.mem.slots), a5, a6, a7)
    modifies space, space.mem
    ensures space.Valid() && space.objects == {} && space.mem.handles == multiset{}
    ensures counts == [1, 1, 1] && left == {}
  {
    ghost var m, h := space.mem.slots, space.mem.handles;
    c.Destroy();
    CycleDropped(m, space.mem.slots, h, space.mem.handles, c.ptr, a5, a6, a7);
    counts := [space.mem.slots[a5].payload.refCount, space.mem.slots[a6].payload.refCount,
               space.mem.slots[a7].payload.refCount];
    ghost var m' := space.mem.slots;
    space.Collect();
    NothingLeft(m', space.mem.handles, space.objects);
    left := space.objects;
  }

  /** Three distinct nodes. */
  lemma ThreeNodes(a5: Addr, a6: Addr, a7: Addr)
    requires a5 != a6 && a6 != a7 && a7 != a5
    ensures |{a5, a6, a7}| == 3
  {
  }

  /** The test program: the list built, its last `rest_` assigned the
      head, a collection while the head's handle is alive, which keeps all
      three nodes, then the handle destroyed, which leaves each node a count
      of one, and a second collection, which frees all three.  `built` is
      false when an allocation fails. */
  method CollectCycle() returns (built: bool, kept: set<Addr>, counts: seq<nat>, left: set<Addr>)
    ensures built ==> |kept| == 3 && counts == [1, 1, 1] && left == {}
  {
    var mem := new Memory();
    var space := new SetSpace(mem);
    var c, a5, a6, a7 := BuildList(space);
    if c == null {
      return false, {}, [], {};
    }
    CloseCycle(space, c, a5, a6, a7);
    kept := CollectLive(space, c, a5, a6, a7);
    counts, left := DropHead(space, c, a5, a6, a7);
    ThreeNodes(a5, a6, a7);
    built := true;
  }
}
