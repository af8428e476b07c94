/**
 * The heap seen as a graph, and the specification functions the collector's
 * phases are proved against.  Slot addresses of every space live in one map;
 * a used slot's out-edges are what tracing its object visits.
 */
module HeapGraph {
  import opened Tracing
  import opened Slot

  type Heap = map<Addr, Slot>

  /** Out-edges of each used slot, in trace order, null edges included. */
  type Graph = map<Addr, seq<Ref>>

  /** What `trace` visits on an object (objects are always constructed
      well formed; anything else has no edges). */
  function Edges(obj: Value): seq<Ref>
  {
    if WellFormed(obj) then Trace(obj) else []
  }

  predicate IsUsed(m: Heap, a: Addr)
  {
    a in m && m[a].payload.Used?
  }

  function UsedAddrs(m: Heap): (s: set<Addr>)
    ensures forall a :: a in s <==> IsUsed(m, a)
  {
    set a | a in m && m[a].payload.Used?
  }

  function GraphOf(m: Heap): (g: Graph)
    ensures g.Keys == UsedAddrs(m)
    ensures forall a {:trigger g[a]} :: a in g ==> g[a] == Edges(m[a].payload.obj)
  {
    map a | a in m && m[a].payload.Used? :: Edges(m[a].payload.obj)
  }

  /** `m'` keeps every slot of `m` as it was and its other slots are not
      used: what growing the memory by fresh pages does. */
  ghost predicate Extends(m: Heap, m': Heap)
  {
    (forall a :: a in m ==> a in m' && m'[a] == m[a]) &&
    (forall a :: a in m' && a !in m ==> !m'[a].payload.Used?)
  }

  /** Used slots whose mark bit is set. */
  function MarkedSet(m: Heap): (s: set<Addr>)
    ensures forall a {:trigger a in s} :: a in s <==> IsUsed(m, a) && m[a].mark
  {
    set a | a in m && m[a].payload.Used? && m[a].mark
  }

  function UnmarkedUsed(m: Heap): (s: set<Addr>)
    ensures forall a {:trigger a in s} :: a in s <==> IsUsed(m, a) && !m[a].mark
  {
    set a | a in m && m[a].payload.Used? && !m[a].mark
  }

  /** The non-null addresses of a sequence of edges, with multiplicity. */
  function Targets(es: seq<Ref>): multiset<Addr>
  {
    if es == [] then multiset{}
    else Targets(es[..|es| - 1]) + (if es[|es| - 1].At? then multiset{es[|es| - 1].addr} else multiset{})
  }

  lemma TargetsSingle(p: Ref)
    ensures Targets([p]) == if p.At? then multiset{p.addr} else multiset{}
  {
    assert [p][..0] == [];
  }

  lemma TargetsSnoc(es: seq<Ref>, p: Ref)
    ensures Targets(es + [p]) == Targets(es) + Targets([p])
  {
    assert (es + [p])[..|es|] == es;
    TargetsSingle(p);
  }

  lemma {:induction false} TargetsAppend(es: seq<Ref>, fs: seq<Ref>)
    ensures Targets(es + fs) == Targets(es) + Targets(fs)
    decreases |fs|
  {
    if fs == [] {
      assert es + fs == es;
    } else {
      var init := fs[..|fs| - 1];
      var last := fs[|fs| - 1];
      assert fs == init + [last];
      assert es + fs == (es + init) + [last];
      TargetsAppend(es, init);
      TargetsSnoc(es + init, last);
      TargetsSnoc(init, last);
    }
  }

  /** A handle member's target is among the object's edges. */
  lemma MemberTargetIncluded(obj: Value, i: nat)
    requires WellFormed(obj) && HandleMember(obj, i)
    ensures Targets([obj.fields[i].ptr]) <= Targets(Edges(obj))
  {
    AssignedEdges(obj, i, Null);
  }

  /** Copy-assigning `q` to a handle member of an object trades the old
      target for `q` among the object's edges: the old one was there, and
      every edge afterwards was there before or is `q`. */
  lemma AssignedEdges(obj: Value, i: nat, q: Ref)
    requires WellFormed(obj) && HandleMember(obj, i)
    ensures Targets([obj.fields[i].ptr]) <= Targets(Edges(obj))
    ensures Targets(Edges(AssignedMember(obj, i, q))) + Targets([obj.fields[i].ptr]) ==
            Targets(Edges(obj)) + Targets([q])
    ensures forall e :: e in Edges(AssignedMember(obj, i, q)) ==> e in Edges(obj) || e == q
  {
    var p := obj.fields[i].ptr;
    var before := TraceEach(obj.fields[..i]);
    var after := TraceEach(obj.fields[i + 1..]);
    TraceAssignedMember(obj, i, q);
    TargetsAppend(before + [p], after);
    TargetsAppend(before, [p]);
    TargetsAppend(before + [q], after);
    TargetsAppend(before, [q]);
  }

  lemma {:induction false} TargetsMember(es: seq<Ref>, a: Addr)
    ensures a in Targets(es) <==> At(a) in es
  {
    if es != [] {
      TargetsMember(es[..|es| - 1], a);
      assert es == es[..|es| - 1] + [es[|es| - 1]];
    }
  }

  lemma {:induction false} TargetsPrefix(es: seq<Ref>, j: nat)
    requires j <= |es|
    ensures Targets(es[..j]) <= Targets(es)
    decreases |es| - j
  {
    if j < |es| {
      TargetsPrefix(es, j + 1);
      assert es[..j + 1][..j] == es[..j];
    } else {
      assert es[..j] == es;
    }
  }

  /** The multiset of edge targets leaving the sources `srcs`. */
  ghost function InEdges(g: Graph, srcs: set<Addr>): multiset<Addr>
    requires srcs <= g.Keys
    decreases srcs
  {
    if srcs == {} then multiset{}
    else
      var u :| u in srcs;
      Targets(g[u]) + InEdges(g, srcs - {u})
  }

  /** Any source can be taken out first. */
  lemma {:induction false} InEdgesRemove(g: Graph, srcs: set<Addr>, y: Addr)
    requires srcs <= g.Keys && y in srcs
    ensures InEdges(g, srcs) == Targets(g[y]) + InEdges(g, srcs - {y})
    decreases srcs
  {
    var u :| u in srcs && InEdges(g, srcs) == Targets(g[u]) + InEdges(g, srcs - {u});
    if u != y {
      InEdgesRemove(g, srcs - {u}, y);
      InEdgesRemove(g, srcs - {y}, u);
      assert srcs - {u} - {y} == srcs - {y} - {u};
    }
  }

  /** In-edges only depend on the sources' own out-edges. */
  lemma {:induction false} InEdgesFrame(g1: Graph, g2: Graph, srcs: set<Addr>)
    requires srcs <= g1.Keys && srcs <= g2.Keys
    requires forall a :: a in srcs ==> g1[a] == g2[a]
    ensures InEdges(g1, srcs) == InEdges(g2, srcs)
    decreases srcs
  {
    if srcs != {} {
      var u :| u in srcs && InEdges(g1, srcs) == Targets(g1[u]) + InEdges(g1, srcs - {u});
      InEdgesRemove(g2, srcs, u);
      InEdgesFrame(g1, g2, srcs - {u});
    }
  }

  /** In-edges of a union of disjoint source sets add up. */
  lemma {:induction false} InEdgesUnion(g: Graph, a: set<Addr>, b: set<Addr>)
    requires a <= g.Keys && b <= g.Keys && a !! b
    ensures InEdges(g, a + b) == InEdges(g, a) + InEdges(g, b)
    decreases a
  {
    if a == {} {
      assert a + b == b;
    } else {
      var u :| u in a && InEdges(g, a) == Targets(g[u]) + InEdges(g, a - {u});
      InEdgesRemove(g, a + b, u);
      assert (a + b) - {u} == (a - {u}) + b;
      InEdgesUnion(g, a - {u}, b);
    }
  }

  /** A source's own edges are among the in-edges of any set holding it. */
  lemma SourceTargetsIncluded(g: Graph, srcs: set<Addr>, y: Addr)
    requires srcs <= g.Keys && y in srcs
    ensures Targets(g[y]) <= InEdges(g, srcs)
  {
    InEdgesRemove(g, srcs, y);
  }

  // ----- reachability -----

  /** A path through used slots along non-null edges. */
  ghost predicate IsPath(g: Graph, p: seq<Addr>)
  {
    |p| > 0 &&
    forall i :: 0 <= i < |p| ==> p[i] in g && (i + 1 < |p| ==> At(p[i + 1]) in g[p[i]])
  }

  /** The used slots reachable from `roots`. */
  ghost function Reach(g: Graph, roots: set<Addr>): set<Addr>
  {
    set y | y in g && exists p :: IsPath(g, p) && p[0] in roots && p[|p| - 1] == y
  }

  /** Every edge from a slot of `c` to a used slot stays in `c`. */
  ghost predicate Closed(g: Graph, c: set<Addr>)
  {
    forall x, e :: x in c && x in g && e in g[x] && e.At? && e.addr in g ==> e.addr in c
  }

  /** No edge of a used slot leads to a slot that is not used. */
  ghost predicate EdgesClosed(g: Graph)
  {
    forall x, e :: x in g && e in g[x] && e.At? ==> e.addr in g
  }

  lemma ReachHasRoots(g: Graph, roots: set<Addr>)
    ensures roots * g.Keys <= Reach(g, roots)
  {
    forall y | y in roots * g.Keys ensures y in Reach(g, roots) {
      assert IsPath(g, [y]);
    }
  }

  lemma ReachStep(g: Graph, roots: set<Addr>, x: Addr, c: Addr)
    requires x in Reach(g, roots) && At(c) in g[x] && c in g
    ensures c in Reach(g, roots)
  {
    var p :| IsPath(g, p) && p[0] in roots && p[|p| - 1] == x;
    var q := p + [c];
    assert IsPath(g, q) && q[0] in roots && q[|q| - 1] == c;
  }

  /** The reachable set is closed under edges. */
  lemma ReachIsClosed(g: Graph, roots: set<Addr>)
    ensures Closed(g, Reach(g, roots))
  {
    forall x, e | x in Reach(g, roots) && x in g && e in g[x] && e.At? && e.addr in g
      ensures e.addr in Reach(g, roots)
    {
      ReachStep(g, roots, x, e.addr);
    }
  }

  lemma {:induction false} PathStaysInClosed(g: Graph, c: set<Addr>, p: seq<Addr>)
    requires IsPath(g, p) && p[0] in c && Closed(g, c)
    ensures p[|p| - 1] in c
    decreases |p|
  {
    if |p| > 1 {
      var q := p[..|p| - 1];
      assert IsPath(g, q);
      PathStaysInClosed(g, c, q);
      assert At(p[|p| - 1]) in g[q[|q| - 1]];
    }
  }

  /** The reachable set is the least closed set holding the roots. */
  lemma ClosedContainsReach(g: Graph, roots: set<Addr>, c: set<Addr>)
    requires roots <= c && Closed(g, c)
    ensures Reach(g, roots) <= c
  {
    forall y | y in Reach(g, roots) ensures y in c {
      var p :| IsPath(g, p) && p[0] in roots && p[|p| - 1] == y;
      PathStaysInClosed(g, c, p);
    }
  }

  lemma ReachMonotone(g: Graph, a: set<Addr>, b: set<Addr>)
    requires a <= b
    ensures Reach(g, a) <= Reach(g, b)
  {
  }

  /** Whatever a reachable slot reaches is reachable. */
  lemma ReachFromReached(g: Graph, roots: set<Addr>, x: Addr)
    requires x in Reach(g, roots)
    ensures Reach(g, {x}) <= Reach(g, roots)
  {
    ReachIsClosed(g, roots);
    ClosedContainsReach(g, {x}, Reach(g, roots));
  }

  lemma ReachSubgraph(g: Graph, roots: set<Addr>)
    ensures Reach(g, roots) <= g.Keys
  {
  }

  /** A subgraph that keeps every slot reachable from `roots`, with its
      out-edges, reaches the same slots. */
  lemma ReachInSubgraph(g: Graph, g': Graph, roots: set<Addr>)
    requires Reach(g, roots) <= g'.Keys
    requires forall a :: a in g' ==> a in g && g'[a] == g[a]
    ensures Reach(g', roots) == Reach(g, roots)
  {
    forall y | y in Reach(g, roots) ensures y in Reach(g', roots) {
      var p :| IsPath(g, p) && p[0] in roots && p[|p| - 1] == y;
      forall j | 0 <= j < |p| ensures p[j] in g' {
        var q := p[..j + 1];
        assert IsPath(g, q) && q[0] in roots && q[|q| - 1] == p[j];
      }
      assert IsPath(g', p);
    }
    forall y | y in Reach(g', roots) ensures y in Reach(g, roots) {
      var p :| IsPath(g', p) && p[0] in roots && p[|p| - 1] == y;
      assert IsPath(g, p);
    }
  }

  // ----- the state changes the phases make -----

  /** Phase 1 on the slots `srcs`: every root count becomes the reference
      count. */
  function SaveCounts(m: Heap, srcs: set<Addr>): (r: Heap)
    ensures r.Keys == m.Keys
    ensures forall a {:trigger r[a]} :: a in m && a in srcs && m[a].payload.Used? ==>
              r[a] == m[a].(payload := m[a].payload.(rootCount := m[a].payload.refCount))
    ensures forall a {:trigger r[a]} :: a in m && !(a in srcs && m[a].payload.Used?) ==> r[a] == m[a]
  {
    map a | a in m ::
      if a in srcs && m[a].payload.Used?
      then m[a].(payload := m[a].payload.(rootCount := m[a].payload.refCount))
      else m[a]
  }

  /** Every used slot's root count lowered by its multiplicity in `d`. */
  function LowerRoots(m: Heap, d: multiset<Addr>): (r: Heap)
    ensures r.Keys == m.Keys
    ensures forall a {:trigger r[a]} :: a in m && m[a].payload.Used? ==>
              r[a] == m[a].(payload := m[a].payload.(rootCount := m[a].payload.rootCount - d[a]))
    ensures forall a {:trigger r[a]} :: a in m && !m[a].payload.Used? ==> r[a] == m[a]
  {
    map a | a in m ::
      if m[a].payload.Used?
      then m[a].(payload := m[a].payload.(rootCount := m[a].payload.rootCount - d[a]))
      else m[a]
  }

  /** Every used slot's reference count raised by its multiplicity in `d`. */
  function RaiseRefs(m: Heap, d: multiset<Addr>): (r: Heap)
    ensures r.Keys == m.Keys
    ensures forall a {:trigger r[a]} :: a in m && m[a].payload.Used? ==>
              r[a] == m[a].(payload := m[a].payload.(refCount := m[a].payload.refCount + d[a]))
    ensures forall a {:trigger r[a]} :: a in m && !m[a].payload.Used? ==> r[a] == m[a]
  {
    map a | a in m ::
      if m[a].payload.Used?
      then m[a].(payload := m[a].payload.(refCount := m[a].payload.refCount + d[a]))
      else m[a]
  }

  /** Every used slot's reference count lowered by its multiplicity in `d`;
      slots that are not used are left alone. */
  function LowerRefs(m: Heap, d: multiset<Addr>): (r: Heap)
    requires forall a :: a in m && m[a].payload.Used? ==> d[a] <= m[a].payload.refCount
    ensures r.Keys == m.Keys
    ensures forall a {:trigger r[a]} :: a in m && m[a].payload.Used? ==>
              r[a] == m[a].(payload := m[a].payload.(refCount := m[a].payload.refCount - d[a]))
    ensures forall a {:trigger r[a]} :: a in m && !m[a].payload.Used? ==> r[a] == m[a]
  {
    map a | a in m ::
      if m[a].payload.Used?
      then m[a].(payload := m[a].payload.(refCount := m[a].payload.refCount - d[a]))
      else m[a]
  }

  lemma RaiseRefsCompose(m: Heap, d1: multiset<Addr>, d2: multiset<Addr>)
    ensures RaiseRefs(RaiseRefs(m, d1), d2) == RaiseRefs(m, d1 + d2)
  {
  }

  lemma LowerRefsCompose(m: Heap, d1: multiset<Addr>, d2: multiset<Addr>)
    requires forall a :: a in m && m[a].payload.Used? ==> (d1 + d2)[a] <= m[a].payload.refCount
    ensures forall a :: a in m && m[a].payload.Used? ==> d1[a] <= m[a].payload.refCount
    ensures var m1 := LowerRefs(m, d1);
            (forall a :: a in m1 && m1[a].payload.Used? ==> d2[a] <= m1[a].payload.refCount) &&
            LowerRefs(m1, d2) == LowerRefs(m, d1 + d2)
  {
  }

  lemma LowerRootsCompose(m: Heap, d1: multiset<Addr>, d2: multiset<Addr>)
    ensures LowerRoots(LowerRoots(m, d1), d2) == LowerRoots(m, d1 + d2)
  {
  }

  /** Saving one more slot's count is a single-slot write. */
  lemma SaveCountsOneMore(m: Heap, srcs: set<Addr>, x: Addr)
    requires IsUsed(m, x)
    ensures var c := SaveCounts(m, srcs);
            IsUsed(c, x) &&
            SaveCounts(m, srcs + {x}) ==
              c[x := c[x].(payload := c[x].payload.(rootCount := c[x].payload.refCount))]
  {
    var c := SaveCounts(m, srcs);
    var w := c[x := c[x].(payload := c[x].payload.(rootCount := c[x].payload.refCount))];
    assert SaveCounts(m, srcs + {x}) == w;
  }

  /** Saving the counts of two sets of slots, one after the other. */
  lemma SaveCountsCompose(m: Heap, a: set<Addr>, b: set<Addr>)
    ensures SaveCounts(SaveCounts(m, a), b) == SaveCounts(m, a + b)
  {
  }

  /** One more source of in-edges. */
  lemma InEdgesOneMore(g: Graph, srcs: set<Addr>, x: Addr)
    requires srcs <= g.Keys && x in g && x !in srcs
    ensures InEdges(g, srcs + {x}) == InEdges(g, srcs) + Targets(g[x])
  {
    InEdgesRemove(g, srcs + {x}, x);
    assert (srcs + {x}) - {x} == srcs;
  }

  /** Lowering one more root count is a single-slot write. */
  lemma LowerRootsOneMore(m: Heap, d: multiset<Addr>, x: Addr)
    requires IsUsed(m, x)
    ensures var c := LowerRoots(m, d);
            IsUsed(c, x) &&
            LowerRoots(m, d + multiset{x}) ==
              c[x := c[x].(payload := c[x].payload.(rootCount := c[x].payload.rootCount - 1))]
  {
    var c := LowerRoots(m, d);
    var w := c[x := c[x].(payload := c[x].payload.(rootCount := c[x].payload.rootCount - 1))];
    assert LowerRoots(m, d + multiset{x}) == w;
  }

  /** Two heaps that differ at most in root counts and mark bits. */
  predicate SameExceptRootsAndMarks(m: Heap, m': Heap)
  {
    m'.Keys == m.Keys &&
    forall a :: a in m ==>
      m'[a].free == m[a].free &&
      (m[a].payload.Used? <==> m'[a].payload.Used?) &&
      (m[a].payload.Used? ==>
        m'[a].payload.obj == m[a].payload.obj &&
        m'[a].payload.refCount == m[a].payload.refCount) &&
      (!m[a].payload.Used? ==> m'[a].payload == m[a].payload)
  }

  lemma SameExceptRootsAndMarksGraph(m: Heap, m': Heap)
    requires SameExceptRootsAndMarks(m, m')
    ensures GraphOf(m') == GraphOf(m)
  {
  }
}
