/**
 * The heap of all registered spaces together, as `Collector::collect` sees
 * it: every space's layout holds in the one shared memory, the spaces own
 * disjoint addresses, and the used slots of the memory are exactly the used
 * slots of the spaces.  The lemmas here compose the per-space phases, run
 * space after space, into the phases over the whole heap.
 */
module Collection {
  import opened Tracing
  import opened Slot
  import opened HeapGraph
  import opened Memory
  import opened PageLayout
  import opened Phases

  /** The used slots of all the given spaces. */
  function AllUsed(vs: seq<SpaceView>): set<Addr>
  {
    set k, a | 0 <= k < |vs| && a in UsedSet(vs[k]) :: a
  }

  /** The slots some handle outside the heap holds. */
  function Held(h: multiset<Addr>): set<Addr>
  {
    set a | a in h
  }

  /** Every space's layout holds in `m`. */
  ghost predicate Layouts(vs: seq<SpaceView>, m: Heap)
  {
    forall k :: 0 <= k < |vs| ==> SpaceInv(vs[k], m)
  }

  /** No address belongs to two spaces. */
  ghost predicate DomsDisjoint(vs: seq<SpaceView>)
  {
    forall k, l :: 0 <= k < |vs| && 0 <= l < |vs| && k != l ==> Dom(vs[k]) !! Dom(vs[l])
  }

  /** The spaces account for the memory: layouts hold, addresses are not
      shared, the used slots are the spaces' used slots, and every
      reference count is the number of handles holding the slot. */
  ghost predicate Consistent(vs: seq<SpaceView>, m: Heap, h: multiset<Addr>)
  {
    Layouts(vs, m) && DomsDisjoint(vs) && UsedAddrs(m) == AllUsed(vs) && Counted(m, h)
  }

  /** The heap between collections: consistent, every edge leads to a used
      slot, and no used slot is marked. */
  ghost predicate HeapInv(vs: seq<SpaceView>, m: Heap, h: multiset<Addr>)
  {
    Consistent(vs, m, h) && EdgesClosed(GraphOf(m)) && Quiescent(m)
  }

  /** A newly registered space has no pages: registering it keeps the
      heap invariant. */
  lemma RegisteredKeeps(vs: seq<SpaceView>, m: Heap, h: multiset<Addr>, firstPageSize: nat)
    requires HeapInv(vs, m, h) && firstPageSize >= 2
    ensures HeapInv(vs + [EmptySpace(firstPageSize)], m, h)
  {
    var e := EmptySpace(firstPageSize);
    var ws := vs + [e];
    EmptySpaceInv(firstPageSize, m);
    forall k | 0 <= k < |ws| ensures SpaceInv(ws[k], m) && (k < |vs| ==> ws[k] == vs[k]) {
    }
    AllUsedSnoc(ws, |vs|);
    assert ws[..|vs|] == vs && ws[..|vs| + 1] == ws;
    assert UsedSet(e) == {};
  }

  /** `operator=(const traced_ptr&)` on a handle member of an object in
      one of the spaces, given a handle of a used slot: no layout changes,
      the counting stays exact and every edge still leads to a used slot,
      so the heap invariant holds afterwards. */
  lemma HeapInvAfterAssign(vs: seq<SpaceView>, m: Heap, h: multiset<Addr>, x: Addr, i: nat, q: Ref)
    requires HeapInv(vs, m, h)
    requires IsUsed(m, x) && WellFormed(m[x].payload.obj) && HandleMember(m[x].payload.obj, i)
    requires q.At? ==> IsUsed(m, q.addr)
    ensures Releasable(m, [m[x].payload.obj.fields[i].ptr])
    ensures HeapInv(vs, MemberAssigned(m, x, i, q), h)
  {
    CountedAfterAssign(m, h, x, i, q);
    MemberAssignedKeeps(m, x, i, q);
    var m' := MemberAssigned(m, x, i, q);
    forall a | a in m ensures a in m' && SameLayout(m[a], m'[a]) {
    }
    LayoutsFrame(vs, m, m');
  }

  // ----- the used slots of several spaces -----

  lemma AllUsedMember(vs: seq<SpaceView>, a: Addr)
    ensures a in AllUsed(vs) <==> exists k :: 0 <= k < |vs| && a in UsedSet(vs[k])
  {
  }

  /** The first `i + 1` spaces' used slots are the first `i` spaces' and
      those of space `i`. */
  lemma {:induction false} AllUsedSnoc(vs: seq<SpaceView>, i: nat)
    requires i < |vs|
    ensures AllUsed(vs[..i + 1]) == AllUsed(vs[..i]) + UsedSet(vs[i])
    ensures AllUsed(vs[..i]) <= AllUsed(vs) && AllUsed(vs[..i + 1]) <= AllUsed(vs)
  {
    var p, q := vs[..i], vs[..i + 1];
    forall a | a in AllUsed(q) ensures a in AllUsed(p) + UsedSet(vs[i]) {
      var k :| 0 <= k < |q| && a in UsedSet(q[k]);
      if k < i {
        assert p[k] == q[k];
      }
    }
    forall a | a in AllUsed(p) + UsedSet(vs[i]) ensures a in AllUsed(q) {
      if a in UsedSet(vs[i]) {
        assert q[i] == vs[i];
      } else {
        var k :| 0 <= k < |p| && a in UsedSet(p[k]);
        assert q[k] == p[k];
      }
    }
    AllUsedPrefix(vs, i);
    AllUsedPrefix(vs, i + 1);
  }

  /** The first `j` spaces' used slots are among all the spaces' ones. */
  lemma {:induction false} AllUsedPrefix(vs: seq<SpaceView>, j: nat)
    requires j <= |vs|
    ensures AllUsed(vs[..j]) <= AllUsed(vs)
  {
    forall a | a in AllUsed(vs[..j]) ensures a in AllUsed(vs) {
      var k :| 0 <= k < j && a in UsedSet(vs[..j][k]);
      assert vs[k] == vs[..j][k];
    }
  }

  lemma AllUsedHas(vs: seq<SpaceView>, i: nat)
    requires i < |vs|
    ensures UsedSet(vs[i]) <= AllUsed(vs)
  {
  }

  lemma AllUsedNone(vs: seq<SpaceView>)
    ensures AllUsed(vs[..0]) == {} && AllUsed([]) == {}
  {
  }

  lemma AllUsedWhole(vs: seq<SpaceView>)
    ensures vs[..|vs|] == vs
  {
  }

  /** The used slots of the spaces before space `i` are not space `i`'s. */
  lemma AllUsedDisjoint(vs: seq<SpaceView>, i: nat)
    requires DomsDisjoint(vs) && i < |vs|
    ensures AllUsed(vs[..i]) !! Dom(vs[i])
  {
    forall a | a in AllUsed(vs[..i]) ensures a !in Dom(vs[i]) {
      var k :| 0 <= k < i && a in UsedSet(vs[..i][k]);
      assert vs[..i][k] == vs[k];
      assert Dom(vs[k]) !! Dom(vs[i]);
    }
  }

  /** Replacing one space's view changes only its share of the used slots. */
  lemma AllUsedReplace(vs: seq<SpaceView>, i: nat, v': SpaceView)
    requires DomsDisjoint(vs) && i < |vs|
    ensures AllUsed(vs[i := v']) == (AllUsed(vs) - UsedSet(vs[i])) + UsedSet(v')
  {
    var ws := vs[i := v'];
    forall a | a in AllUsed(ws) ensures a in (AllUsed(vs) - UsedSet(vs[i])) + UsedSet(v') {
      var k :| 0 <= k < |ws| && a in UsedSet(ws[k]);
      if k != i {
        assert Dom(vs[k]) !! Dom(vs[i]);
      }
    }
    forall a | a in (AllUsed(vs) - UsedSet(vs[i])) + UsedSet(v') ensures a in AllUsed(ws) {
      if a in UsedSet(v') {
        assert ws[i] == v';
      } else {
        var k :| 0 <= k < |vs| && a in UsedSet(vs[k]);
        assert ws[k] == vs[k];
      }
    }
  }

  /** The used slots of the spaces are used slots of the memory. */
  lemma LayoutsUsed(vs: seq<SpaceView>, m: Heap)
    requires Layouts(vs, m)
    ensures AllUsed(vs) <= UsedAddrs(m)
  {
    forall a | a in AllUsed(vs) ensures IsUsed(m, a) {
      var k :| 0 <= k < |vs| && a in UsedSet(vs[k]);
      UsedSlotIsUsed(vs[k], m, a);
    }
  }

  /** The layouts only depend on what `SameLayout` compares. */
  lemma LayoutsFrame(vs: seq<SpaceView>, m: Heap, m': Heap)
    requires Layouts(vs, m)
    requires forall a :: a in m ==> a in m' && SameLayout(m[a], m'[a])
    ensures Layouts(vs, m')
  {
    forall k | 0 <= k < |vs| ensures SpaceInv(vs[k], m') {
      LayoutFrame(vs[k], m, m');
    }
  }

  // ----- phases 1 and 2 over every space -----

  /** Space `i` of phase 1: its layout holds after the spaces before it
      have saved their counts, and its own save extends theirs. */
  lemma SaveCountsAllStep(vs: seq<SpaceView>, m0: Heap, i: nat)
    requires Layouts(vs, m0) && i < |vs|
    ensures var c := SaveCounts(m0, AllUsed(vs[..i]));
            SpaceInv(vs[i], c) &&
            SaveCounts(c, UsedSet(vs[i])) == SaveCounts(m0, AllUsed(vs[..i + 1]))
  {
    var c := SaveCounts(m0, AllUsed(vs[..i]));
    assert SameLayoutOn(m0, c, Dom(vs[i]));
    LayoutFrame(vs[i], m0, c);
    AllUsedSnoc(vs, i);
    SaveCountsCompose(m0, AllUsed(vs[..i]), UsedSet(vs[i]));
  }

  /** Space `i` of phase 2: its layout and the graph hold after the spaces
      before it have subtracted their in-edges, and its own subtraction
      extends theirs. */
  lemma FindRootsAllStep(vs: seq<SpaceView>, m0: Heap, i: nat)
    requires Layouts(vs, m0) && DomsDisjoint(vs) && i < |vs|
    ensures AllUsed(vs[..i]) <= UsedAddrs(m0) && AllUsed(vs[..i + 1]) <= UsedAddrs(m0)
    ensures UsedSet(vs[i]) <= UsedAddrs(m0)
    ensures var g := GraphOf(m0);
            var c := LowerRoots(m0, InEdges(g, AllUsed(vs[..i])));
            SpaceInv(vs[i], c) && GraphOf(c) == g &&
            LowerRoots(c, InEdges(GraphOf(c), UsedSet(vs[i]))) == LowerRoots(m0, InEdges(g, AllUsed(vs[..i + 1])))
  {
    var g := GraphOf(m0);
    var a := AllUsed(vs[..i]);
    LayoutsUsed(vs, m0);
    AllUsedSnoc(vs, i);
    AllUsedDisjoint(vs, i);
    var c := LowerRoots(m0, InEdges(g, a));
    assert SameLayoutOn(m0, c, Dom(vs[i]));
    LayoutFrame(vs[i], m0, c);
    LowerRootsKeepsGraph(m0, InEdges(g, a));
    InEdgesUnion(g, a, UsedSet(vs[i]));
    LowerRootsCompose(m0, InEdges(g, a), InEdges(g, UsedSet(vs[i])));
  }

  /** One space's `find_roots`: the in-edges from its used slots are
      subtracted. */
  ghost function FoundIn(c: Heap, v: SpaceView): Heap
  {
    if UsedSet(v) <= UsedAddrs(c) then LowerRoots(c, InEdges(GraphOf(c), UsedSet(v))) else c
  }

  /** The heap after phase 2 has run on the first `i` spaces. */
  ghost function FoundTo(vs: seq<SpaceView>, m0: Heap, i: nat): Heap
    requires i <= |vs|
    decreases i
  {
    if i == 0 then m0 else FoundIn(FoundTo(vs, m0, i - 1), vs[i - 1])
  }

  /** Every space's layout, and the closed graph, hold when phase 2 reaches
      it. */
  ghost predicate FindReady(vs: seq<SpaceView>, m0: Heap)
  {
    forall i :: 0 <= i < |vs| ==>
      var c := FoundTo(vs, m0, i);
      SpaceInv(vs[i], c) && EdgesClosed(GraphOf(c)) && UsedSet(vs[i]) <= UsedAddrs(c)
  }

  lemma {:induction false} FoundToIs(vs: seq<SpaceView>, m0: Heap, i: nat)
    requires DomsDisjoint(vs) && AllUsed(vs) <= UsedAddrs(m0) && i <= |vs|
    ensures AllUsed(vs[..i]) <= UsedAddrs(m0)
    ensures FoundTo(vs, m0, i) == LowerRoots(m0, InEdges(GraphOf(m0), AllUsed(vs[..i])))
    decreases i
  {
    if i == 0 {
      AllUsedNone(vs);
      PhasesStart(m0, []);
    } else {
      var j := i - 1;
      FoundToIs(vs, m0, j);
      FoundToSucc(vs, m0, j);
    }
  }

  lemma FoundToSucc(vs: seq<SpaceView>, m0: Heap, i: nat)
    requires DomsDisjoint(vs) && AllUsed(vs) <= UsedAddrs(m0) && i < |vs|
    requires AllUsed(vs[..i]) <= UsedAddrs(m0)
    requires FoundTo(vs, m0, i) == LowerRoots(m0, InEdges(GraphOf(m0), AllUsed(vs[..i])))
    ensures AllUsed(vs[..i + 1]) <= UsedAddrs(m0)
    ensures FoundTo(vs, m0, i + 1) == LowerRoots(m0, InEdges(GraphOf(m0), AllUsed(vs[..i + 1])))
  {
    var g := GraphOf(m0);
    var a := AllUsed(vs[..i]);
    AllUsedSnoc(vs, i);
    AllUsedHas(vs, i);
    AllUsedDisjoint(vs, i);
    LowerRootsKeepsGraph(m0, InEdges(g, a));
    InEdgesUnion(g, a, UsedSet(vs[i]));
    LowerRootsCompose(m0, InEdges(g, a), InEdges(g, UsedSet(vs[i])));
    assert FoundTo(vs, m0, i + 1) == FoundIn(FoundTo(vs, m0, i), vs[i]);
  }

  /** Phase 2 over every space subtracts the in-edges from all used
      slots. */
  lemma FoundAllReady(vs: seq<SpaceView>, m0: Heap)
    requires Layouts(vs, m0) && DomsDisjoint(vs) && EdgesClosed(GraphOf(m0))
    ensures FindReady(vs, m0)
    ensures AllUsed(vs) <= UsedAddrs(m0)
    ensures FoundTo(vs, m0, |vs|) == LowerRoots(m0, InEdges(GraphOf(m0), AllUsed(vs)))
  {
    LayoutsUsed(vs, m0);
    forall i | 0 <= i < |vs|
      ensures var c := FoundTo(vs, m0, i);
              SpaceInv(vs[i], c) && EdgesClosed(GraphOf(c)) && UsedSet(vs[i]) <= UsedAddrs(c)
    {
      FoundToIs(vs, m0, i);
      FindRootsAllStep(vs, m0, i);
      LowerRootsKeepsGraph(m0, InEdges(GraphOf(m0), AllUsed(vs[..i])));
    }
    FoundToIs(vs, m0, |vs|);
    AllUsedWhole(vs);
  }

  /** After phases 1 and 2 on every space, a used slot's root count is the
      number of handles outside the heap that hold it, so the slots `mark`
      searches from are exactly the held ones. */
  lemma RootsAreHeld(m0: Heap, h: multiset<Addr>)
    requires Counted(m0, h)
    ensures var u := UsedAddrs(m0);
            var m1 := SaveCounts(m0, u);
            u <= GraphOf(m1).Keys &&
            var m2 := LowerRoots(m1, InEdges(GraphOf(m1), u));
            (forall a :: IsUsed(m2, a) ==> m2[a].payload.rootCount == h[a]) &&
            RootsAmong(m2, u) == Held(h)
  {
    var u := UsedAddrs(m0);
    var m1 := SaveCounts(m0, u);
    SameExceptRootsAndMarksGraph(m0, m1);
    var d := InEdges(GraphOf(m1), u);
    var m2 := LowerRoots(m1, d);
    forall a | IsUsed(m2, a) ensures m2[a].payload.rootCount == h[a] {
      assert IsUsed(m0, a);
    }
  }

  // ----- phase 3 over every space -----

  /** Space `i` of phase 3: marking so far keeps its layout, the graph and
      its root counts. */
  lemma MarkAllReady(vs: seq<SpaceView>, m0: Heap, m: Heap, r: set<Addr>, i: nat)
    requires Layouts(vs, m0) && EdgesClosed(GraphOf(m0)) && i < |vs|
    requires MarkedFromSet(m0, m, r)
    ensures SpaceInv(vs[i], m) && EdgesClosed(GraphOf(m))
    ensures RootsAmong(m, UsedSet(vs[i])) == RootsAmong(m0, UsedSet(vs[i]))
  {
    OnlyMarksSetKeepsGraph(m0, m);
    assert SameLayoutOn(m0, m, Dom(vs[i]));
    LayoutFrame(vs[i], m0, m);
  }

  lemma MarkAllNext(vs: seq<SpaceView>, m0: Heap, m: Heap, m': Heap, i: nat)
    requires i < |vs|
    requires MarkedFromSet(m0, m, RootsAmong(m0, AllUsed(vs[..i])))
    requires MarkedFromSet(m, m', RootsAmong(m0, UsedSet(vs[i])))
    ensures MarkedFromSet(m0, m', RootsAmong(m0, AllUsed(vs[..i + 1])))
  {
    AllUsedSnoc(vs, i);
    MarkedFromUnion(m0, m, m', RootsAmong(m0, AllUsed(vs[..i])), RootsAmong(m0, UsedSet(vs[i])));
    assert RootsAmong(m0, AllUsed(vs[..i])) + RootsAmong(m0, UsedSet(vs[i])) ==
           RootsAmong(m0, AllUsed(vs[..i + 1]));
  }

  // ----- phase 4 over every space -----

  /** Before phase 4: consistent, and no unmarked used slot is held by a
      handle outside the heap. */
  ghost predicate SweepAllPre(vs: seq<SpaceView>, m: Heap, h: multiset<Addr>)
  {
    Consistent(vs, m, h) && forall a :: IsUsed(m, a) && !m[a].mark ==> h[a] == 0
  }

  /** Phase 4 has swept the first `i` spaces: the heap is consistent with
      the spaces' current views, what has been swept is the used slots of
      those spaces, and the other spaces are as they were. */
  ghost predicate SweepProgress(vs0: seq<SpaceView>, m0: Heap, h: multiset<Addr>,
                                vs: seq<SpaceView>, m: Heap, i: nat)
  {
    i <= |vs0| && |vs| == |vs0| &&
    Consistent(vs, m, h) &&
    Swept(m0, m, AllUsed(vs0[..i])) &&
    (forall k :: i <= k < |vs| ==> vs[k] == vs0[k])
  }

  /** Each of the first `i` spaces that has a page has a free slot. */
  ghost predicate HasFree(vs: seq<SpaceView>, i: nat)
  {
    forall k :: 0 <= k < i && k < |vs| ==> (vs[k].pages != [] ==> vs[k].free != [])
  }

  /** No space lost a page. */
  ghost predicate PagesKept(vs0: seq<SpaceView>, vs: seq<SpaceView>)
  {
    |vs| == |vs0| && forall k :: 0 <= k < |vs| ==> |vs[k].pages| >= |vs0[k].pages|
  }

  /** Sweeping space `i` keeps its pages, and gives it a free slot when
      it has a page. */
  lemma SweptViews(vs0: seq<SpaceView>, ws: seq<SpaceView>, i: nat, v': SpaceView)
    requires i < |ws| && HasFree(ws, i) && PagesKept(vs0, ws) && |v'.pages| >= |ws[i].pages|
    ensures PagesKept(vs0, ws[i := v'])
    ensures (v'.pages != [] ==> v'.free != []) ==> HasFree(ws[i := v'], i + 1)
  {
  }

  lemma SweepAllStart(vs0: seq<SpaceView>, m0: Heap, h: multiset<Addr>)
    requires SweepAllPre(vs0, m0, h)
    ensures SweepProgress(vs0, m0, h, vs0, m0, 0)
  {
    AllUsedNone(vs0);
    PhasesStart(m0, []);
  }

  /** What space `i`'s `sweep` needs: its layout, the counting, and no
      unmarked used slot of it held from outside. */
  lemma SweepAllReady(vs0: seq<SpaceView>, m0: Heap, h: multiset<Addr>, vs: seq<SpaceView>, m: Heap, i: nat)
    requires SweepAllPre(vs0, m0, h) && SweepProgress(vs0, m0, h, vs, m, i) && i < |vs|
    ensures SpaceInv(vs[i], m) && Counted(m, h)
    ensures forall a :: a in UsedSet(vs[i]) ==> a in m && (!m[a].mark ==> h[a] == 0)
  {
    forall a | a in UsedSet(vs[i]) ensures a in m && (!m[a].mark ==> h[a] == 0) {
      UsedSlotIsUsed(vs[i], m, a);
      AllUsedDisjoint(vs0, i);
      assert a in Dom(vs0[i]);
    }
  }

  /** Two sweeps one after the other, of disjoint sets of slots. */
  lemma SweptCompose(m0: Heap, m1: Heap, m2: Heap, s1: set<Addr>, s2: set<Addr>)
    requires Swept(m0, m1, s1) && Swept(m1, m2, s2) && s1 !! s2
    ensures Swept(m0, m2, s1 + s2)
  {
    forall a | a in m2 && a !in m0 ensures !m2[a].payload.Used? {
      if a in m1 {
        assert a !in UsedAddrs(m1);
        assert a !in UsedAddrs(m2);
      }
    }
    assert Dead(m1, s2) == Dead(m0, s2);
    assert Dead(m0, s1 + s2) == Dead(m0, s1) + Dead(m0, s2);
  }

  /** Space `i` has been swept: the progress extends to it. */
  lemma SweepAllNext(vs0: seq<SpaceView>, m0: Heap, h: multiset<Addr>, vs: seq<SpaceView>, m: Heap,
                     v': SpaceView, m': Heap, i: nat)
    requires SweepAllPre(vs0, m0, h) && SweepProgress(vs0, m0, h, vs, m, i) && i < |vs|
    requires SpaceInv(v', m') && Counted(m', h)
    requires Swept(m, m', UsedSet(vs[i]))
    requires UsedSet(v') == UsedSet(vs[i]) - Dead(m, UsedSet(vs[i]))
    requires forall a :: a in Dom(v') ==> a in Dom(vs[i]) || a !in m
    ensures SweepProgress(vs0, m0, h, vs[i := v'], m', i + 1)
  {
    SweptSpace(vs, m, h, i, v', m');
    AllUsedSnoc(vs0, i);
    AllUsedDisjoint(vs0, i);
    assert vs[i] == vs0[i];
    assert UsedSet(vs[i]) <= Dom(vs[i]);
    SweptCompose(m0, m, m', AllUsed(vs0[..i]), UsedSet(vs[i]));
  }

  /** Sweeping one space keeps the heap consistent with the spaces. */
  lemma SweptSpace(vs: seq<SpaceView>, m: Heap, h: multiset<Addr>, i: nat, v': SpaceView, m': Heap)
    requires Consistent(vs, m, h) && i < |vs|
    requires SpaceInv(v', m') && Counted(m', h)
    requires Swept(m, m', UsedSet(vs[i]))
    requires UsedSet(v') == UsedSet(vs[i]) - Dead(m, UsedSet(vs[i]))
    requires forall a :: a in Dom(v') ==> a in Dom(vs[i]) || a !in m
    ensures Consistent(vs[i := v'], m', h)
  {
    AllUsedHas(vs, i);
    SweptUsedAddrs(m, m', UsedSet(vs[i]), UsedSet(v'));
    ConsistentReplace(vs, m, h, i, v', m');
  }

  lemma SweptUsedAddrs(m: Heap, m': Heap, u: set<Addr>, u': set<Addr>)
    requires UsedAddrs(m') == UsedAddrs(m) - Dead(m, u) && u <= UsedAddrs(m)
    requires u' == u - Dead(m, u)
    ensures UsedAddrs(m') == (UsedAddrs(m) - u) + u'
  {
  }

  /** One space's view and the memory change so that its used slots are
      still the memory's ones, the other spaces' slots keep their layout, and it only
      gains addresses that were not in memory: the heap stays consistent. */
  lemma ConsistentReplace(vs: seq<SpaceView>, m: Heap, h: multiset<Addr>, i: nat, v': SpaceView, m': Heap)
    requires Consistent(vs, m, h) && i < |vs|
    requires SpaceInv(v', m') && Counted(m', h)
    requires forall a :: a in m ==> a in m'
    requires forall a :: a in m && a !in Dom(vs[i]) ==> SameLayout(m[a], m'[a])
    requires forall a :: a in Dom(v') ==> a in Dom(vs[i]) || a !in m
    requires UsedAddrs(m') == (UsedAddrs(m) - UsedSet(vs[i])) + UsedSet(v')
    ensures Consistent(vs[i := v'], m', h)
  {
    var ws := vs[i := v'];
    LayoutsUsed(vs, m);
    forall k | 0 <= k < |ws| ensures SpaceInv(ws[k], m') {
      if k != i {
        assert Dom(vs[k]) !! Dom(vs[i]);
        DomInHeap(vs[k], m);
        assert SameLayoutOn(m, m', Dom(vs[k]));
        LayoutFrame(vs[k], m, m');
      }
    }
    forall k, l | 0 <= k < |ws| && 0 <= l < |ws| && k != l ensures Dom(ws[k]) !! Dom(ws[l]) {
      if k == i || l == i {
        var o := if k == i then l else k;
        DomInHeap(vs[o], m);
        assert Dom(vs[o]) !! Dom(vs[i]);
      }
    }
    AllUsedReplace(vs, i, v');
  }

  /** After the last space: every used slot of the heap has been swept. */
  lemma SweepAllDone(vs0: seq<SpaceView>, m0: Heap, h: multiset<Addr>, vs: seq<SpaceView>, m: Heap)
    requires SweepAllPre(vs0, m0, h) && SweepProgress(vs0, m0, h, vs, m, |vs0|)
    ensures Consistent(vs, m, h) && Swept(m0, m, UsedAddrs(m0))
  {
    assert vs0[..|vs0|] == vs0;
  }

  /** Sweeping every used slot, when the marked slots are closed under
      edges, leaves exactly the marked slots, unmarked, with every edge
      leading to one of them. */
  lemma SweptEverything(m0: Heap, m: Heap)
    requires Swept(m0, m, UsedAddrs(m0))
    requires Closed(GraphOf(m0), MarkedSet(m0)) && EdgesClosed(GraphOf(m0))
    ensures UsedAddrs(m) == MarkedSet(m0)
    ensures EdgesClosed(GraphOf(m)) && Quiescent(m)
  {
    var g0, g := GraphOf(m0), GraphOf(m);
    assert UsedAddrs(m) == MarkedSet(m0);
    forall x: Addr, e: Ref | x in g && e in g[x] && e.At? ensures e.addr in g {
      assert g[x] == g0[x];
    }
  }

  // ----- `collect`: the four phases over every space -----

  /** After phase 1 on every space: layouts, the graph and the used slots
      are as before. */
  lemma SavedAll(vs: seq<SpaceView>, m0: Heap, h: multiset<Addr>)
    requires HeapInv(vs, m0, h)
    ensures var m1 := SaveCounts(m0, AllUsed(vs));
            Layouts(vs, m1) && GraphOf(m1) == GraphOf(m0) && UsedAddrs(m1) == AllUsed(vs) &&
            EdgesClosed(GraphOf(m1))
  {
    var m1 := SaveCounts(m0, AllUsed(vs));
    assert SameExceptRootsAndMarks(m0, m1);
    SameExceptRootsAndMarksGraph(m0, m1);
    LayoutsFrame(vs, m0, m1);
  }

  /** After phase 2 on every space: what phase 3 needs, and the slots it
      searches from are exactly those held by handles outside the heap. */
  lemma FoundAll(vs: seq<SpaceView>, m0: Heap, h: multiset<Addr>)
    requires HeapInv(vs, m0, h)
    ensures var u := AllUsed(vs);
            var m1 := SaveCounts(m0, u);
            u <= GraphOf(m1).Keys &&
            var m2 := LowerRoots(m1, InEdges(GraphOf(m1), u));
            Layouts(vs, m2) && GraphOf(m2) == GraphOf(m0) && EdgesClosed(GraphOf(m2)) &&
            RootsAmong(m2, u) == Held(h) && MarkedSet(m2) == {} && UsedAddrs(m2) == u &&
            (forall a :: IsUsed(m2, a) ==> SameObject(m0, m2, a))
  {
    var u := AllUsed(vs);
    SavedAll(vs, m0, h);
    RootsAreHeld(m0, h);
    var m1 := SaveCounts(m0, u);
    var d := InEdges(GraphOf(m1), u);
    var m2 := LowerRoots(m1, d);
    LowerRootsKeepsGraph(m1, d);
    assert SameExceptRootsAndMarks(m1, m2);
    LayoutsFrame(vs, m1, m2);
    assert MarkedSet(m2) == {};
  }

  /** After phase 3 on every space: exactly the slots reachable from the
      held ones are marked, and the sweep may begin. */
  lemma MarkedAll(vs: seq<SpaceView>, m0: Heap, h: multiset<Addr>, m2: Heap, m3: Heap)
    requires HeapInv(vs, m0, h)
    requires Layouts(vs, m2) && GraphOf(m2) == GraphOf(m0) && EdgesClosed(GraphOf(m2))
    requires MarkedSet(m2) == {} && UsedAddrs(m2) == AllUsed(vs) && Held(h) <= UsedAddrs(m2)
    requires forall a :: IsUsed(m2, a) ==> SameObject(m0, m2, a)
    requires MarkedFromSet(m2, m3, Held(h))
    ensures MarkedSet(m3) == Reach(GraphOf(m0), Held(h))
    ensures SweepAllPre(vs, m3, h)
    ensures GraphOf(m3) == GraphOf(m0) && EdgesClosed(GraphOf(m3)) && Closed(GraphOf(m3), MarkedSet(m3))
    ensures forall a :: IsUsed(m3, a) ==> SameObject(m0, m3, a)
  {
    MarkedExactlyReach(m2, m3, Held(h));
    OnlyMarksSetKeepsGraph(m2, m3);
    ReachIsClosed(GraphOf(m0), Held(h));
    MarkedConsistent(vs, m0, h, m2, m3);
    ReachHasRoots(GraphOf(m0), Held(h));
    forall a | IsUsed(m3, a) && !m3[a].mark ensures h[a] == 0 {
      assert a !in MarkedSet(m3);
      assert a !in Held(h);
    }
  }

  /** The used slot `a` of `m'` holds the object and reference count it
      held in `m`. */
  ghost predicate SameObject(m: Heap, m': Heap, a: Addr)
    requires IsUsed(m', a)
  {
    IsUsed(m, a) && m'[a].payload.obj == m[a].payload.obj && m'[a].payload.refCount == m[a].payload.refCount
  }

  lemma MarkedConsistent(vs: seq<SpaceView>, m0: Heap, h: multiset<Addr>, m2: Heap, m3: Heap)
    requires Consistent(vs, m0, h)
    requires Layouts(vs, m2) && UsedAddrs(m2) == AllUsed(vs)
    requires forall a :: IsUsed(m2, a) ==> SameObject(m0, m2, a)
    requires OnlyMarksSet(m2, m3)
    ensures Consistent(vs, m3, h)
    ensures forall a :: IsUsed(m3, a) ==> SameObject(m0, m3, a)
  {
    assert SameLayoutOn(m2, m3, m2.Keys);
    LayoutsFrame(vs, m2, m3);
    forall a | IsUsed(m0, a) ensures IsUsed(m3, a) && m3[a].payload.obj == m0[a].payload.obj &&
                                     m3[a].payload.refCount == m0[a].payload.refCount {
      assert IsUsed(m2, a) && SameObject(m0, m2, a);
    }
    CountedFrame(m0, m3, h);
  }

  /** A collection keeps exactly the slots reachable from the handles
      outside the heap, each with its object, and leaves the heap between
      collections again. */
  lemma CollectedAll(vs: seq<SpaceView>, m0: Heap, h: multiset<Addr>, m3: Heap, ws: seq<SpaceView>, m: Heap)
    requires MarkedSet(m3) == Reach(GraphOf(m0), Held(h)) && GraphOf(m3) == GraphOf(m0)
    requires forall a :: IsUsed(m3, a) ==> SameObject(m0, m3, a)
    requires EdgesClosed(GraphOf(m3)) && Closed(GraphOf(m3), MarkedSet(m3))
    requires SweepAllPre(vs, m3, h) && SweepProgress(vs, m3, h, ws, m, |vs|)
    ensures HeapInv(ws, m, h)
    ensures UsedAddrs(m) == Reach(GraphOf(m0), Held(h))
    ensures forall a :: IsUsed(m, a) ==> IsUsed(m0, a) && m[a].payload.obj == m0[a].payload.obj
  {
    SweepAllDone(vs, m3, h, ws, m);
    SweptEverything(m3, m);
    forall a | IsUsed(m, a) ensures IsUsed(m0, a) && m[a].payload.obj == m0[a].payload.obj {
      assert IsUsed(m3, a) && SameObject(m0, m3, a);
    }
  }

  /** The heap once phases 1 and 2 have run over every space. */
  ghost function RootsFound(vs: seq<SpaceView>, m0: Heap): Heap
  {
    var u := AllUsed(vs);
    var m1 := SaveCounts(m0, u);
    if u <= GraphOf(m1).Keys then LowerRoots(m1, InEdges(GraphOf(m1), u)) else m1
  }

  /** Between collections, phases 1, 2 and 3 can run over the spaces in
      order. */
  lemma CollectPlan(vs: seq<SpaceView>, m0: Heap, h: multiset<Addr>)
    requires HeapInv(vs, m0, h)
    ensures var m1 := SaveCounts(m0, AllUsed(vs));
            FindReady(vs, m1) && DomsDisjoint(vs) && AllUsed(vs) <= UsedAddrs(m1) &&
            AllUsed(vs) <= GraphOf(m1).Keys &&
            RootsFound(vs, m0) == LowerRoots(m1, InEdges(GraphOf(m1), AllUsed(vs)))
    ensures var m2 := RootsFound(vs, m0);
            Layouts(vs, m2) && EdgesClosed(GraphOf(m2))
  {
    SavedAll(vs, m0, h);
    var m1 := SaveCounts(m0, AllUsed(vs));
    FoundAllReady(vs, m1);
    FoundAll(vs, m0, h);
  }

  /** After phase 3 has marked from the roots phase 2 found, the sweep may
      begin, and what is marked is what the held slots reach. */
  lemma MarkedPlan(vs: seq<SpaceView>, m0: Heap, h: multiset<Addr>, m3: Heap)
    requires HeapInv(vs, m0, h)
    requires var m2 := RootsFound(vs, m0);
             MarkedFromSet(m2, m3, RootsAmong(m2, AllUsed(vs)))
    ensures SweepAllPre(vs, m3, h) && m3.Keys == m0.Keys
    ensures MarkedSet(m3) == Reach(GraphOf(m0), Held(h)) && GraphOf(m3) == GraphOf(m0)
    ensures forall a :: IsUsed(m3, a) ==> SameObject(m0, m3, a)
    ensures EdgesClosed(GraphOf(m3)) && Closed(GraphOf(m3), MarkedSet(m3))
  {
    SavedAll(vs, m0, h);
    var m1 := SaveCounts(m0, AllUsed(vs));
    FoundAllReady(vs, m1);
    FoundAll(vs, m0, h);
    var m2 := RootsFound(vs, m0);
    assert m2.Keys == m0.Keys;
    MarkedAll(vs, m0, h, m2, m3);
  }

  // ----- allocation (`allocate_`) -----

  /** A page from fresh memory added to space `k` keeps the heap as it
      was between collections, with the space's new view. */
  lemma GrewKeeps(vs: seq<SpaceView>, m: Heap, h: multiset<Addr>, k: nat, v': SpaceView, m': Heap)
    requires HeapInv(vs, m, h) && k < |vs|
    requires SpaceInv(v', m') && Extends(m, m') && UsedSet(v') == UsedSet(vs[k])
    requires forall a :: a in Dom(v') ==> a in Dom(vs[k]) || a !in m
    ensures HeapInv(vs[k := v'], m', h)
    ensures UsedAddrs(m') == UsedAddrs(m) && GraphOf(m') == GraphOf(m)
  {
    GainedSlots(m, m', h);
    LayoutsUsed(vs, m);
    AllUsedHas(vs, k);
    ConsistentReplace(vs, m, h, k, v', m');
  }

  /** The heap after `allocate_` has filled the free slot `d` with `obj`:
      the slot is used, and the handle members the constructor copied
      raise their targets' counts. */
  ghost function Filled(m: Heap, d: Addr, obj: Value, rootCount: int): Heap
  {
    RaiseRefs(m[d := AsUsed(obj, rootCount)], Targets(Edges(obj)))
  }

  /** Filling the head of space `k`'s free list with an object whose
      handles are copies of handles held outside the heap keeps the heap
      as it is between collections, with one more used slot, which was
      not used before. */
  lemma FilledKeeps(vs: seq<SpaceView>, m: Heap, h: multiset<Addr>, k: nat, obj: Value, rootCount: int)
    requires HeapInv(vs, m, h) && k < |vs| && vs[k].free != []
    requires forall a :: a in Targets(Edges(obj)) ==> a in h
    ensures var d := vs[k].free[0];
            var m' := Filled(m, d, obj, rootCount);
            d in m && !IsUsed(m, d) && IsUsed(m', d) && m'[d].payload.obj == obj &&
            m'[d].payload.refCount == 0 && d in UsedSet(Popped(vs[k])) && m'.Keys == m.Keys &&
            HeapInv(vs[k := Popped(vs[k])], m', h) &&
            UsedAddrs(m') == UsedAddrs(m) + {d} &&
            (forall a :: IsUsed(m, a) ==> IsUsed(m', a) && m'[a].payload.obj == m[a].payload.obj)
  {
    var v := vs[k];
    var m' := Filled(m, v.free[0], obj, rootCount);
    FilledLayout(v, m, obj, rootCount, Targets(Edges(obj)));
    FilledSlots(m, v.free[0], obj, rootCount);
    CountedAfterConstruct(m, h, v.free[0], obj, rootCount);
    LayoutsUsed(vs, m);
    AllUsedHas(vs, k);
    NewSlotUncounted(m, h, v.free[0], obj, rootCount);
    OneMoreUsed(UsedAddrs(m), UsedSet(v), v.free[0], UsedAddrs(m'), UsedSet(Popped(v)));
    ConsistentReplace(vs, m, h, k, Popped(v), m');
  }

  lemma OneMoreUsed(u: set<Addr>, s: set<Addr>, d: Addr, u': set<Addr>, s': set<Addr>)
    requires s <= u && u' == u + {d} && s' == s + {d}
    ensures u' == (u - s) + s'
  {
  }

  /** `FilledKeeps` for the space's layout. */
  lemma FilledLayout(v: SpaceView, m: Heap, obj: Value, rootCount: int, t: multiset<Addr>)
    requires SpaceInv(v, m) && v.free != []
    ensures var d := v.free[0];
            d in m && d in Dom(v) && !m[d].payload.Used? &&
            SpaceInv(Popped(v), RaiseRefs(m[d := AsUsed(obj, rootCount)], t)) &&
            Dom(Popped(v)) == Dom(v) && UsedSet(Popped(v)) == UsedSet(v) + {d}
  {
    var d := v.free[0];
    var m1 := m[d := AsUsed(obj, rootCount)];
    FreeHead(v, m);
    PopInv(v, m, obj, rootCount);
    RaisedLayout(Popped(v), m1, t);
  }

  /** Raising reference counts keeps a layout. */
  lemma RaisedLayout(v: SpaceView, m: Heap, t: multiset<Addr>)
    requires SpaceInv(v, m)
    ensures SpaceInv(v, RaiseRefs(m, t))
  {
    DomInHeap(v, m);
    assert SameLayoutOn(m, RaiseRefs(m, t), Dom(v));
    LayoutFrame(v, m, RaiseRefs(m, t));
  }

  /** `FilledKeeps` for the slots themselves. */
  lemma FilledSlots(m: Heap, d: Addr, obj: Value, rootCount: int)
    requires d in m && !m[d].payload.Used? && Quiescent(m)
    ensures var m' := Filled(m, d, obj, rootCount);
            IsUsed(m', d) && m'[d].payload.obj == obj && Quiescent(m') && m'.Keys == m.Keys &&
            (forall a :: a in m && a != d ==> SameLayout(m[a], m'[a])) &&
            UsedAddrs(m') == UsedAddrs(m) + {d} &&
            (forall a :: IsUsed(m, a) ==> IsUsed(m', a) && m'[a].payload.obj == m[a].payload.obj)
  {
    ConstructedHeap(m, Targets(Edges(obj)), d, obj, rootCount);
  }

  /** A new object starts with no handle on it: its slot was free, so
      neither a handle outside the heap nor one of its own members holds it. */
  lemma NewSlotUncounted(m: Heap, h: multiset<Addr>, d: Addr, obj: Value, rootCount: int)
    requires Counted(m, h) && d in m && !m[d].payload.Used?
    requires forall a :: a in Targets(Edges(obj)) ==> a in h
    ensures Filled(m, d, obj, rootCount)[d].payload.refCount == 0
  {
    ConstructedHeap(m, Targets(Edges(obj)), d, obj, rootCount);
    assert d !in h;
  }

  /** The constructor threw: the slot went back on the free list with its
      mark cleared, and nothing else changed. */
  lemma ThrewKeeps(vs: seq<SpaceView>, m: Heap, h: multiset<Addr>, k: nat)
    requires HeapInv(vs, m, h) && k < |vs| && vs[k].free != []
    ensures var d := vs[k].free[0];
            var m' := m[d := WithMark(m[d], false)];
            HeapInv(vs, m', h) && UsedAddrs(m') == UsedAddrs(m) && GraphOf(m') == GraphOf(m) &&
            (forall a :: IsUsed(m, a) ==> m'[a] == m[a]) && m'.Keys == m.Keys
  {
    var v := vs[k];
    var d := v.free[0];
    var m' := m[d := WithMark(m[d], false)];
    FreeHead(v, m);
    ClearedFree(m, d);
    LayoutsFrame(vs, m, m');
    CountedFrame(m, m', h);
  }

  /** Clearing the mark of a free slot changes no layout and no used slot. */
  lemma ClearedFree(m: Heap, d: Addr)
    requires d in m && !m[d].payload.Used?
    ensures var m' := m[d := WithMark(m[d], false)];
            (forall a :: a in m ==> a in m' && SameLayout(m[a], m'[a])) &&
            UsedAddrs(m') == UsedAddrs(m) &&
            (forall a :: IsUsed(m, a) ==> m'[a] == m[a]) &&
            (Quiescent(m) ==> Quiescent(m'))
  {
  }

  /** `allocate` hands the new slot to a `traced_ptr`: one handle more
      outside the heap, and that slot's count one higher. */
  lemma HeldKeeps(vs: seq<SpaceView>, m: Heap, h: multiset<Addr>, a: Addr)
    requires HeapInv(vs, m, h) && IsUsed(m, a)
    ensures var m' := RaiseRefs(m, Targets([At(a)]));
            HeapInv(vs, m', h + multiset{a}) &&
            UsedAddrs(m') == UsedAddrs(m) && GraphOf(m') == GraphOf(m) &&
            m'[a].payload.refCount == m[a].payload.refCount + 1
  {
    var m' := RaiseRefs(m, Targets([At(a)]));
    CountedAfterHold(m, h, a);
    RaisedSameLayout(m, Targets([At(a)]));
    LayoutsFrame(vs, m, m');
    HeapInvFrame(vs, m, h, m', h + multiset{a});
  }

  lemma RaisedSameLayout(m: Heap, t: multiset<Addr>)
    ensures forall x :: x in m ==> x in RaiseRefs(m, t) && SameLayout(m[x], RaiseRefs(m, t)[x])
  {
  }

  /** The invariant carries over to a heap with the same used slots, edges
      and layouts, counted against new handles. */
  lemma HeapInvFrame(vs: seq<SpaceView>, m: Heap, h: multiset<Addr>, m': Heap, h': multiset<Addr>)
    requires HeapInv(vs, m, h) && Layouts(vs, m')
    requires UsedAddrs(m') == UsedAddrs(m) && GraphOf(m') == GraphOf(m)
    requires Counted(m', h') && Quiescent(m')
    ensures HeapInv(vs, m', h')
  {
  }

  /** A second collection with the same handles frees nothing: what the
      first one kept is exactly what is reachable in what it kept. */
  lemma CollectAgainKeepsAll(m0: Heap, m: Heap, h: multiset<Addr>)
    requires UsedAddrs(m) == Reach(GraphOf(m0), Held(h))
    requires forall a :: IsUsed(m, a) ==> IsUsed(m0, a) && m[a].payload.obj == m0[a].payload.obj
    ensures Reach(GraphOf(m), Held(h)) == UsedAddrs(m)
  {
    ReachInSubgraph(GraphOf(m0), GraphOf(m), Held(h));
  }
}
