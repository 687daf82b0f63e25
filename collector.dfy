/** The mark-compact collector `snek_gc` and the allocation trap
    `snek_try_gc`. The heap is the array `words` of a `Heap`, whose word `x`
    lives at address `start + 8 * x`; the stack is a separate array of words
    whose slot indices stand for stack addresses, scanned from `base` down
    to `rsp`. */
module Collector {
  import opened Values
  import opened HeapLayout
  import opened Errors

  // ---------------------------------------------------------------------
  // The root scan (`find_root_ptrs`)
  // ---------------------------------------------------------------------

  /** The root test: an odd word other than 1 whose address `val - 1` lies
      in [start, end). */
  predicate IsRootWord(start: int, end: int, v: Word)
  {
    IsRef(v) && start <= v - 1 < end
  }

  /** The slots the scan records, visiting `ptr`, `ptr - 1`, ..., `rsp`. */
  function RootSlots(s: seq<Word>, ptr: int, rsp: int, start: int, end: int): seq<int>
    requires ptr < |s| && 0 <= rsp
    decreases ptr - rsp
  {
    if ptr < rsp then []
    else (if IsRootWord(start, end, s[ptr]) then [ptr] else []) + RootSlots(s, ptr - 1, rsp, start, end)
  }

  /** The scan records exactly the slots between `rsp` and `ptr` whose word
      passes the root test, each once, from the highest slot down. */
  lemma {:induction false} RootSlotsExactly(s: seq<Word>, ptr: int, rsp: int, start: int, end: int)
    requires ptr < |s| && 0 <= rsp
    ensures forall slot :: slot in RootSlots(s, ptr, rsp, start, end) <==>
      rsp <= slot <= ptr && IsRootWord(start, end, s[slot])
    ensures forall i, j :: 0 <= i < j < |RootSlots(s, ptr, rsp, start, end)| ==>
      RootSlots(s, ptr, rsp, start, end)[i] > RootSlots(s, ptr, rsp, start, end)[j]
    decreases ptr - rsp
  {
    if ptr >= rsp {
      var tail := RootSlots(s, ptr - 1, rsp, start, end);
      RootSlotsExactly(s, ptr - 1, rsp, start, end);
      assert forall j :: 0 <= j < |tail| ==> tail[j] in tail;
    }
  }

  /** The objects the recorded slots refer to. */
  ghost function RootTargets(s: seq<Word>, slots: seq<int>, start: int): set<int>
  {
    set slot | slot in slots && 0 <= slot < |s| :: Target(start, s[slot])
  }

  /** The marked set `m` is `m0` together with the objects of `found`, each
      listed once, none marked before, and each reachable from `x`. */
  ghost predicate FoundFrom(h0: seq<Word>, start: int, objs: set<int>, x: int, m0: set<int>, found: seq<int>, m: set<int>)
  {
    m == m0 + Elems(found) && Elems(found) !! m0 && NoDup(found) &&
    forall y :: y in found ==> ReachFrom(h0, start, objs, x, y)
  }

  /** What one pass of the loop in `mark` adds to the objects `x` has
      marked: `sub`, marked from one of its elements, joins `found`. */
  lemma FoundGrows(h0: seq<Word>, start: int, objs: set<int>, x: int,
                   m0: set<int>, m: set<int>, m': set<int>, found: seq<int>, sub: seq<int>)
    requires FoundFrom(h0, start, objs, x, m0, found, m) && FoundFrom(h0, start, objs, x, m, sub, m')
    ensures FoundFrom(h0, start, objs, x, m0, found + sub, m')
  {
    forall y | y in sub
      ensures y !in found
    {
      assert y in Elems(sub);
    }
    NoDupAppend(found, sub);
    assert Elems(found + sub) == Elems(found) + Elems(sub);
  }

  /** What marking from one more root adds to the facts the marking loop
      keeps. */
  lemma MarkRootStep(h0: seq<Word>, start: int, objs: set<int>, targets: set<int>, rootAddr: int,
                     vecPtrs: seq<int>, found: seq<int>)
    requires rootAddr in targets && NoDup(vecPtrs) && NoDup(found) && Elems(found) !! Elems(vecPtrs)
    requires forall y :: y in vecPtrs ==> Reachable(h0, start, objs, targets, y)
    requires forall y :: y in found ==> ReachFrom(h0, start, objs, rootAddr, y)
    ensures Elems(vecPtrs + found) == Elems(vecPtrs) + Elems(found) && NoDup(vecPtrs + found)
    ensures forall y :: y in vecPtrs + found ==> Reachable(h0, start, objs, targets, y)
  {
    forall y | y in found
      ensures y !in vecPtrs
    {
      assert y in Elems(found);
    }
    NoDupAppend(vecPtrs, found);
    assert Elems(vecPtrs + found) == Elems(vecPtrs) + Elems(found);
  }

  // ---------------------------------------------------------------------
  // How the stages of `snek_gc` fit together
  // ---------------------------------------------------------------------

  /** Only the headers of `objs` may differ between `h` and `g`. */
  ghost predicate SameBodies(h: seq<Word>, g: seq<Word>, objs: set<int>)
  {
    |g| == |h| && forall p :: 0 <= p < |h| && p !in objs ==> g[p] == h[p]
  }

  /** Changing headers only keeps the layout, the sizes, the elements and
      so the destinations. */
  lemma SameBodiesKeep(h: seq<Word>, g: seq<Word>, objs: set<int>, xs: seq<int>)
    requires Layout(h, objs) && SameBodies(h, g, objs) && forall k :: 0 <= k < |xs| ==> xs[k] in objs
    ensures Layout(g, objs)
    ensures forall x :: x in objs ==> g[x + 1] == h[x + 1]
    ensures forall x, j :: x in objs && 0 <= j < h[x + 1] ==> Elem(g, x, j) == Elem(h, x, j)
    ensures forall k :: 0 <= k <= |xs| ==> Dest(g, xs, k) == Dest(h, xs, k)
  {
    forall x | x in objs
      ensures g[x + 1] == h[x + 1]
    {
      assert ObjectAt(h, x);
      InsideIsNoStart(h, objs, x, x + 1);
    }
    LayoutFromSizes(h, g, objs);
    forall x, j: int | x in objs && 0 <= j < h[x + 1]
      ensures Elem(g, x, j) == Elem(h, x, j)
    {
      assert ObjectAt(h, x);
      InsideIsNoStart(h, objs, x, x + 2 + j);
    }
    forall k | 0 <= k <= |xs|
      ensures Dest(g, xs, k) == Dest(h, xs, k)
    {
      PackedSameExtents(h, g, xs[..k]);
    }
  }

  /** Every reference held by a live object is to a live object. */
  ghost predicate LiveClosed(h: seq<Word>, start: int, xs: seq<int>)
  {
    forall i, j :: 0 <= i < |xs| && ObjectAt(h, xs[i]) && 0 <= j < h[xs[i] + 1] && IsRef(Elem(h, xs[i], j)) ==>
      Target(start, Elem(h, xs[i], j)) in xs
  }

  /** The reachable objects are closed under references. */
  lemma ReachableClosed(h: seq<Word>, start: int, objs: set<int>, roots: set<int>, xs: seq<int>)
    requires Closed(h, start, objs) && forall k :: 0 <= k < |xs| ==> xs[k] in objs
    requires forall y :: y in xs <==> Reachable(h, start, objs, roots, y)
    ensures LiveClosed(h, start, xs)
  {
    forall i, j | 0 <= i < |xs| && ObjectAt(h, xs[i]) && 0 <= j < h[xs[i] + 1] && IsRef(Elem(h, xs[i], j))
      ensures Target(start, Elem(h, xs[i], j)) in xs
    {
      var a, v := xs[i], Elem(h, xs[i], j);
      assert PointsTo(start, objs, v);
      assert Edge(h, start, objs, a, Target(start, v));
      ReachableStep(h, start, objs, roots, a, Target(start, v));
    }
  }

  /** Forwarding a reference to a live object through the forwarded
      headers gives the reference to the object's new place. */
  lemma ForwardedIsRelocated(h0: seq<Word>, h2: seq<Word>, start: int, xs: seq<int>, v: Word)
    requires |h2| == |h0| && IsRef(v) && Target(start, v) in xs
    requires forall k :: 0 <= k < |xs| ==> 0 <= xs[k] < |h2| && h2[xs[k]] as int == Ref(start, Dest(h0, xs, k))
    ensures 0 <= Target(start, v) < |h2|
    ensures FwdWord(h2, start, v) as int == Relocated(h0, start, xs, v)
  {
    var k := Rank(xs, Target(start, v));
  }

  /** The marking loop leaves 1 exactly in the headers of the live objects,
      which are laid out in increasing order; what `fwd_headers` checks in
      debug builds therefore holds. */
  lemma MarkedHeap(h0: seq<Word>, h1: seq<Word>, start: int, objs: set<int>, vecPtrs: seq<int>, live: seq<int>)
    requires Layout(h0, objs) && MarkingState(h1, h0, objs) && MarkedIn(h1, objs) == Elems(vecPtrs)
    requires NoDup(vecPtrs) && live == SortAscending(vecPtrs)
    ensures Increasing(live) && forall y :: y in live <==> y in vecPtrs
    ensures LiveOrder(h0, objs, live) && LiveOrder(h1, objs, live) && SameBodies(h0, h1, objs)
    ensures forall k :: 0 <= k < |live| ==> h1[live[k]] == 1
    ensures forall k :: 0 <= k <= |live| ==> Dest(h1, live, k) == Dest(h0, live, k)
  {
    SortDistinct(vecPtrs);
    forall k | 0 <= k < |live|
      ensures live[k] in objs && h1[live[k]] == 1
    {
      assert live[k] in vecPtrs;
      assert live[k] in MarkedIn(h1, objs);
    }
    SameBodiesKeep(h0, h1, objs, live);
  }

  /** After `fwd_headers` the bodies are still those of the entry heap and
      every element of a live object refers to an object inside the heap. */
  lemma ForwardedHeaders(h0: seq<Word>, h1: seq<Word>, h2: seq<Word>, start: int, objs: set<int>, live: seq<int>)
    requires StartOk(start, |h0|) && Layout(h0, objs) && Closed(h0, start, objs)
    requires LiveOrder(h1, objs, live) && SameBodies(h0, h1, objs)
    requires forall k :: 0 <= k <= |live| ==> Dest(h1, live, k) == Dest(h0, live, k)
    requires h2 == FwdHeadersSpec(h1, start, live)
    ensures SameBodies(h0, h2, objs) && LiveRefsOk(h2, start, objs, live)
    ensures forall k :: 0 <= k < |live| ==> 0 <= live[k] < |h2| && h2[live[k]] as int == Ref(start, Dest(h0, live, k))
  {
    FwdHeadersSpecWords(h1, start, objs, live);
    forall p | 0 <= p < |h0| && p !in objs
      ensures h2[p] == h0[p]
    {
      assert p !in live;
    }
    SameBodiesKeep(h0, h2, objs, live);
    forall i, j | 0 <= i < |live| && ObjectAt(h2, live[i]) && 0 <= j < h2[live[i] + 1] && IsRef(Elem(h2, live[i], j))
      ensures PointsTo(start, objs, Elem(h2, live[i], j)) && 0 <= Target(start, Elem(h2, live[i], j)) < |h2|
    {
      assert Elem(h2, live[i], j) == Elem(h0, live[i], j);
      assert ObjectAt(h0, Target(start, Elem(h0, live[i], j)));
    }
  }

  /** After `fwd_vec` has run on every live object, the heap is ready for
      compaction, with the sizes of the entry heap. */
  lemma ForwardedElements(h0: seq<Word>, h2: seq<Word>, h3: seq<Word>, start: int, objs: set<int>, live: seq<int>)
    requires Layout(h0, objs) && LiveOrder(h0, objs, live) && SameBodies(h0, h2, objs)
    requires forall k :: 0 <= k < |live| ==> 0 <= live[k] < |h2| && h2[live[k]] as int == Ref(start, Dest(h0, live, k))
    requires |h3| == |h2|
    requires forall p :: 0 <= p < |h2| && !InElemsOf(h2, live, p) ==> h3[p] == h2[p]
    ensures forall x :: x in objs ==> 0 <= x && x + 1 < |h3| && h3[x] == h2[x] && h3[x + 1] == h0[x + 1]
    ensures ReadyToCompact(h3, start, objs, live)
    ensures forall k :: 0 <= k <= |live| ==> Dest(h3, live, k) == Dest(h0, live, k)
  {
    SameBodiesKeep(h0, h2, objs, live);
    forall x | x in objs
      ensures h3[x] == h2[x] && h3[x + 1] == h2[x + 1]
    {
      assert ObjectAt(h2, x);
      forall i | 0 <= i < |live|
        ensures !InElems(h2, live[i], x) && !InElems(h2, live[i], x + 1)
      {
        if InElems(h2, live[i], x) {
          InElemsNotStart(h2, objs, live[i], x);
        }
        if InElems(h2, live[i], x + 1) {
          InElemsNotStart(h2, objs, live[i], x + 1);
        }
      }
    }
    LayoutFromSizes(h2, h3, objs);
    forall k | 0 <= k <= |live|
      ensures Dest(h3, live, k) == Dest(h0, live, k)
    {
      PackedSameExtents(h0, h3, live[..k]);
    }
  }

  /** What `fwd_headers` and `fwd_vec` make of the heap they are given:
      the state the compaction starts from. */
  lemma ForwardedState(h0: seq<Word>, h2: seq<Word>, h3: seq<Word>, start: int, objs: set<int>, live: seq<int>)
    requires Layout(h0, objs) && LiveOrder(h0, objs, live) && LiveClosed(h0, start, live)
    requires SameBodies(h0, h2, objs) && LiveRefsOk(h2, start, objs, live)
    requires forall k :: 0 <= k < |live| ==> 0 <= live[k] < |h2| && h2[live[k]] as int == Ref(start, Dest(h0, live, k))
    requires |h3| == |h2|
    requires forall i, j :: 0 <= i < |live| && ObjectAt(h2, live[i]) && 0 <= j < h2[live[i] + 1] ==>
      Elem(h3, live[i], j) == FwdWord(h2, start, Elem(h2, live[i], j))
    requires forall p :: 0 <= p < |h2| && !InElemsOf(h2, live, p) ==> h3[p] == h2[p]
    ensures BeforeCompaction(h0, h2, h3, start, objs, live)
  {
    ForwardedElements(h0, h2, h3, start, objs, live);
  }

  /** The state the compaction starts from, as the earlier stages leave
      it: `h2` after `fwd_headers`, `h3` after `fwd_vec`. */
  ghost predicate BeforeCompaction(h0: seq<Word>, h2: seq<Word>, h3: seq<Word>, start: int, objs: set<int>, live: seq<int>)
  {
    Layout(h0, objs) && LiveOrder(h0, objs, live) && LiveClosed(h0, start, live) && SameBodies(h0, h2, objs) &&
    |h3| == |h0| &&
    (forall k :: 0 <= k < |live| ==> 0 <= live[k] < |h2| && h2[live[k]] as int == Ref(start, Dest(h0, live, k))) &&
    (forall x :: x in objs ==> 0 <= x && x + 1 < |h3| && h3[x] == h2[x] && h3[x + 1] == h0[x + 1]) &&
    ReadyToCompact(h3, start, objs, live) &&
    (forall k :: 0 <= k <= |live| ==> Dest(h3, live, k) == Dest(h0, live, k)) &&
    LiveRefsOk(h2, start, objs, live) &&
    (forall i, j :: 0 <= i < |live| && ObjectAt(h2, live[i]) && 0 <= j < h2[live[i] + 1] ==>
       Elem(h3, live[i], j) == FwdWord(h2, start, Elem(h2, live[i], j)))
  }

  /** The `k`-th live object after compaction: its size at its destination. */
  lemma CompactedSize(h0: seq<Word>, h2: seq<Word>, h3: seq<Word>, start: int, objs: set<int>, live: seq<int>, first: int, k: int)
    requires BeforeCompaction(h0, h2, h3, start, objs, live) && (first == 0 || first == 1) && 0 <= k < |live|
    ensures ObjectAt(h0, live[k]) && 0 <= Dest(h0, live, k) && Dest(h0, live, k) + Extent(h0, live[k]) <= |h0|
    ensures CompactFold(h3, start, live, first)[Dest(h0, live, k) + 1] == h0[live[k] + 1]
  {
    var h4 := CompactFold(h3, start, live, first);
    CompactFoldPrefix(h3, start, objs, live, |live|, first);
    assert live[..|live|] == live;
    assert BodyAt(h3, live, k, h4);
    assert ObjectAt(h0, live[k]);
    assert WordOf(h4, Dest(h3, live, k), 1) == WordOf(h3, live[k], 1);
  }

  /** The `k`-th live object after compaction: its `j`-th element, relocated,
      at its destination. */
  lemma CompactedElem(h0: seq<Word>, h2: seq<Word>, h3: seq<Word>, start: int, objs: set<int>, live: seq<int>, first: int, k: int, j: int)
    requires BeforeCompaction(h0, h2, h3, start, objs, live) && (first == 0 || first == 1) && 0 <= k < |live|
    requires ObjectAt(h0, live[k]) && 0 <= j < h0[live[k] + 1]
    ensures 0 <= Dest(h0, live, k) && Dest(h0, live, k) + 2 + j < |h0|
    ensures Elem(CompactFold(h3, start, live, first), Dest(h0, live, k), j) as int ==
      Relocated(h0, start, live, Elem(h0, live[k], j))
  {
    var h4 := CompactFold(h3, start, live, first);
    CompactFoldPrefix(h3, start, objs, live, |live|, first);
    assert live[..|live|] == live;
    assert BodyAt(h3, live, k, h4);
    SameBodiesKeep(h0, h2, objs, live);
    assert WordOf(h4, Dest(h3, live, k), 2 + j) == WordOf(h3, live[k], 2 + j);
    var v := Elem(h0, live[k], j);
    assert Elem(h2, live[k], j) == v;
    if IsRef(v) {
      ForwardedIsRelocated(h0, h2, start, live, v);
    }
  }

  /** Stated as a lemma so that `NoRootsNothingLive` can use the fact in a
      branch whose other facts contradict each other: an assertion there
      would be reported as proved from contradictory assumptions. */
  lemma FirstIsIn(s: seq<int>)
    requires s != []
    ensures s[0] in s
  {
  }

  /** With no root slots there are no root targets, so nothing is
      reachable. A lemma for the same reason as `FirstIsIn`. */
  lemma NothingReachableFromNoSlots(h0: seq<Word>, start: int, objs: set<int>, s0: seq<Word>, y: int)
    ensures !Reachable(h0, start, objs, RootTargets(s0, [], start), y)
  {
    assert RootTargets(s0, [], start) == {};
  }

  /** With no root slot recorded nothing is live. */
  lemma NoRootsNothingLive(h0: seq<Word>, start: int, objs: set<int>, s0: seq<Word>, live: seq<int>)
    requires forall y :: y in live <==> Reachable(h0, start, objs, RootTargets(s0, [], start), y)
    ensures live == []
  {
    if live != [] {
      FirstIsIn(live);
      NothingReachableFromNoSlots(h0, start, objs, s0, live[0]);
      assert false;
    }
  }

  /** The recorded slots are distinct and refer to objects, and what they
      refer to are the roots of the marking. */
  lemma RootsPointToObjects(h0: seq<Word>, s0: seq<Word>, base: int, rsp: int, start: int, end: int,
                            objs: set<int>, roots: seq<int>)
    requires 0 <= rsp && base < |s0| && roots == RootSlots(s0, base, rsp, start, end)
    requires Layout(h0, objs)
    requires forall s :: rsp <= s <= base && IsRootWord(start, end, s0[s]) ==> PointsTo(start, objs, s0[s])
    ensures NoDup(roots)
    ensures forall k :: 0 <= k < |roots| ==>
      0 <= roots[k] < |s0| && IsRef(s0[roots[k]]) && PointsTo(start, objs, s0[roots[k]]) &&
      0 <= Target(start, s0[roots[k]]) < |h0|
  {
    RootSlotsExactly(s0, base, rsp, start, end);
    forall k | 0 <= k < |roots|
      ensures 0 <= roots[k] < |s0| && IsRef(s0[roots[k]]) && PointsTo(start, objs, s0[roots[k]])
      ensures 0 <= Target(start, s0[roots[k]]) < |h0|
    {
      assert roots[k] in roots;
      assert ObjectAt(h0, Target(start, s0[roots[k]]));
    }
  }

  /** Every slot the scan records ends up holding the reference to its
      object's new place, and no other slot changes. */
  lemma RootsRelocated(h0: seq<Word>, h2: seq<Word>, s0: seq<Word>, s1: seq<Word>, base: int, rsp: int,
                       start: int, end: int, objs: set<int>, roots: seq<int>, live: seq<int>)
    requires 0 <= rsp && base < |s0| && roots == RootSlots(s0, base, rsp, start, end) && |s1| == |s0|
    requires forall s :: rsp <= s <= base && IsRootWord(start, end, s0[s]) ==> PointsTo(start, objs, s0[s])
    requires |h2| == |h0|
    requires forall y :: y in live <==> Reachable(h0, start, objs, RootTargets(s0, roots, start), y)
    requires forall k :: 0 <= k < |live| ==> 0 <= live[k] < |h2| && h2[live[k]] as int == Ref(start, Dest(h0, live, k))
    requires forall k :: 0 <= k < |roots| ==>
      0 <= roots[k] < |s0| && IsRef(s0[roots[k]]) && 0 <= Target(start, s0[roots[k]]) < |h2|
    requires forall s :: 0 <= s < |s1| ==> s1[s] == if s in roots then FwdWord(h2, start, s0[s]) else s0[s]
    ensures forall s :: rsp <= s <= base && IsRootWord(start, end, s0[s]) ==> Target(start, s0[s]) in live
    ensures forall s :: 0 <= s < |s1| ==>
      s1[s] as int == if rsp <= s <= base && IsRootWord(start, end, s0[s]) then Relocated(h0, start, live, s0[s]) else s0[s] as int
  {
    RootSlotsExactly(s0, base, rsp, start, end);
    var targets := RootTargets(s0, roots, start);
    forall s | rsp <= s <= base && IsRootWord(start, end, s0[s])
      ensures Target(start, s0[s]) in live
    {
      var t := Target(start, s0[s]);
      assert s in roots && t in targets;
      ReachSelf(h0, start, objs, t);
    }
    forall s | 0 <= s < |s1| && rsp <= s <= base && IsRootWord(start, end, s0[s])
      ensures s1[s] as int == Relocated(h0, start, live, s0[s])
    {
      ForwardedIsRelocated(h0, h2, start, live, s0[s]);
    }
  }

  /** `h4` holds each live object of `h0` at its destination, with its size
      and its relocated elements: what compaction leaves, header aside. */
  ghost predicate MovedTo(h0: seq<Word>, h4: seq<Word>, start: int, live: seq<int>)
  {
    LiveClosed(h0, start, live) && |h4| == |h0| &&
    forall k :: 0 <= k < |live| ==>
      ObjectAt(h0, live[k]) && 0 <= Dest(h0, live, k) && Dest(h0, live, k) + Extent(h0, live[k]) <= |h0| &&
      h4[Dest(h0, live, k) + 1] == h0[live[k] + 1] &&
      forall j :: 0 <= j < h0[live[k] + 1] ==>
        Elem(h4, Dest(h0, live, k), j) as int == Relocated(h0, start, live, Elem(h0, live[k], j))
  }

  /** Each live object, after compaction, has its size and its relocated
      elements at its destination. */
  lemma CompactedHeap(h0: seq<Word>, h2: seq<Word>, h3: seq<Word>, h4: seq<Word>, start: int, objs: set<int>, live: seq<int>, first: int)
    requires BeforeCompaction(h0, h2, h3, start, objs, live) && (first == 0 || first == 1)
    requires h4 == CompactFold(h3, start, live, first)
    ensures MovedTo(h0, h4, start, live)
  {
    forall k | 0 <= k < |live|
      ensures ObjectAt(h0, live[k]) && 0 <= Dest(h0, live, k) && Dest(h0, live, k) + Extent(h0, live[k]) <= |h0|
      ensures CompactFold(h3, start, live, first)[Dest(h0, live, k) + 1] == h0[live[k] + 1]
      ensures forall j :: 0 <= j < h0[live[k] + 1] ==>
        Elem(CompactFold(h3, start, live, first), Dest(h0, live, k), j) as int == Relocated(h0, start, live, Elem(h0, live[k], j))
    {
      CompactedSize(h0, h2, h3, start, objs, live, first, k);
      forall j | 0 <= j < h0[live[k] + 1]
        ensures Elem(CompactFold(h3, start, live, first), Dest(h0, live, k), j) as int == Relocated(h0, start, live, Elem(h0, live[k], j))
      {
        CompactedElem(h0, h2, h3, start, objs, live, first, k, j);
      }
    }
  }

  /** What `snek_try_gc` hands back: the frontier to allocate from, or the
      out-of-memory exit. */
  datatype AllocResult = Allocated(heapPtr: int) | Fatal(exit: Exit)

  // ---------------------------------------------------------------------
  // The heap
  // ---------------------------------------------------------------------

  class Heap {
    /** HEAP_START */
    const start: int
    /** The heap's words, from HEAP_START to HEAP_END. */
    const words: array<Word>

    constructor(start: int, words: array<Word>)
      ensures this.start == start && this.words == words
    {
      this.start := start;
      this.words := words;
    }

    /** HEAP_END */
    function End(): int
    {
      start + 8 * words.Length
    }

    /** `find_root_ptrs`: walks the stack from `base` down to `rsp` and
        records each slot whose word passes the root test. */
    method FindRootPtrs(stack: array<Word>, base: int, rsp: int) returns (roots: seq<int>)
      requires 0 <= rsp && base < stack.Length
      ensures roots == RootSlots(stack[..], base, rsp, start, End())
    {
      roots := [];
      var ptr := base;
      while ptr >= rsp
        invariant ptr <= base && (ptr >= rsp - 1 || ptr == base)
        invariant roots + RootSlots(stack[..], ptr, rsp, start, End()) == RootSlots(stack[..], base, rsp, start, End())
        decreases ptr - rsp
      {
        var val := stack[ptr];
        if val % 2 == 1 && val != 1 {
          var vecPtr := val - 1;
          if start <= vecPtr < End() {
            roots := roots + [ptr];
          }
        }
        ptr := ptr - 1;
      }
    }

    /** The heap `h0` the collector was entered with, in the form it
        demands: laid out, with every element that passes the reference test
        referring to an object of `objs`. */
    ghost predicate Graph(h0: seq<Word>, objs: set<int>)
    {
      |h0| == words.Length && StartOk(start, |h0|) && Layout(h0, objs) && Closed(h0, start, objs)
    }

    /** `mark`: returns nothing for an object whose header is odd; otherwise
        sets the header to 1 and marks the objects its elements refer to,
        depth first. `gray` holds the objects whose marking is under way. */
    method Mark(x: int, ghost objs: set<int>, ghost h0: seq<Word>, ghost gray: set<int>) returns (found: seq<int>)
      requires Graph(h0, objs) && x in objs
      requires MarkingState(words[..], h0, objs)
      requires gray <= MarkedIn(words[..], objs)
      requires BlackClosed(h0, start, MarkedIn(words[..], objs), gray)
      modifies words
      ensures MarkingState(words[..], h0, objs)
      ensures x in MarkedIn(words[..], objs)
      ensures MarkedIn(words[..], objs) == MarkedIn(old(words[..]), objs) + Elems(found)
      ensures Elems(found) !! MarkedIn(old(words[..]), objs) && NoDup(found)
      ensures BlackClosed(h0, start, MarkedIn(words[..], objs), gray)
      ensures forall y :: y in found ==> ReachFrom(h0, start, objs, x, y)
      ensures old(words[x]) % 2 == 1 ==> found == []
      ensures old(words[x]) % 2 == 0 ==> |found| > 0 && found[0] == x
      decreases objs - MarkedIn(words[..], objs), 0
    {
      assert ObjectAt(h0, x);
      InsideIsNoStart(h0, objs, x, x + 1);
      var size := words[x + 1];
      found := [];
      if words[x] % 2 == 1 {
        return;
      }
      ghost var m0 := MarkedIn(words[..], objs);
      assert x !in m0;
      found := [x];
      words[x] := 1;
      assert MarkedIn(words[..], objs) == m0 + {x};
      ReachSelf(h0, start, objs, x);
      assert Elems(found) == {x} && NoDup(found);
      var i := 0;
      while i < size
        invariant 0 <= i <= size
        invariant MarkingState(words[..], h0, objs)
        invariant FoundFrom(h0, start, objs, x, m0, found, MarkedIn(words[..], objs))
        invariant |found| > 0 && found[0] == x
        invariant gray + {x} <= MarkedIn(words[..], objs)
        invariant BlackClosed(h0, start, MarkedIn(words[..], objs), gray + {x})
        invariant ChildrenInUpTo(h0, start, x, MarkedIn(words[..], objs), i)
      {
        ghost var m := MarkedIn(words[..], objs);
        var sub := MarkElement(x, i, objs, h0, gray + {x});
        FoundGrows(h0, start, objs, x, m0, m, MarkedIn(words[..], objs), found, sub);
        found := found + sub;
        i := i + 1;
      }
      BlackClosedRelease(h0, start, MarkedIn(words[..], objs), gray, x);
    }

    /** One pass of the loop in `mark`: element `i` of `x` is read and,
        when it is odd and not nil, the object it refers to is marked. */
    method MarkElement(x: int, i: int, ghost objs: set<int>, ghost h0: seq<Word>, ghost gray: set<int>) returns (sub: seq<int>)
      requires Graph(h0, objs) && x in objs && ObjectAt(h0, x) && 0 <= i < h0[x + 1]
      requires MarkingState(words[..], h0, objs)
      requires gray <= MarkedIn(words[..], objs)
      requires BlackClosed(h0, start, MarkedIn(words[..], objs), gray)
      requires ChildrenInUpTo(h0, start, x, MarkedIn(words[..], objs), i)
      modifies words
      ensures MarkingState(words[..], h0, objs)
      ensures FoundFrom(h0, start, objs, x, MarkedIn(old(words[..]), objs), sub, MarkedIn(words[..], objs))
      ensures BlackClosed(h0, start, MarkedIn(words[..], objs), gray)
      ensures ChildrenInUpTo(h0, start, x, MarkedIn(words[..], objs), i + 1)
      decreases objs - MarkedIn(words[..], objs), 1
    {
      InsideIsNoStart(h0, objs, x, x + 2 + i);
      var val := words[x + 2 + i];
      assert val == Elem(h0, x, i);
      ghost var m := MarkedIn(words[..], objs);
      if val % 2 == 1 && val != 1 {
        var child := Target(start, val);
        assert Edge(h0, start, objs, x, child);
        sub := Mark(child, objs, h0, gray);
        ChildrenGrow(h0, start, x, m, MarkedIn(words[..], objs), i);
        ChildrenExtend(h0, start, x, MarkedIn(words[..], objs), i);
        forall y | y in sub
          ensures ReachFrom(h0, start, objs, x, y)
        {
          ReachStep(h0, start, objs, x, child, y);
        }
      } else {
        sub := [];
        ChildrenExtend(h0, start, x, m, i);
      }
    }

    /** The marking loop of `snek_gc`: `mark` from the object each recorded
        slot refers to, concatenating the results. Starting with every header
        0, it returns each object reachable from the roots exactly once. */
    method MarkRoots(stack: array<Word>, roots: seq<int>, ghost objs: set<int>, ghost h0: seq<Word>) returns (vecPtrs: seq<int>)
      requires Graph(h0, objs) && stack != words && words[..] == h0
      requires forall y :: y in objs ==> h0[y] == 0
      requires forall k :: 0 <= k < |roots| ==> 0 <= roots[k] < stack.Length && PointsTo(start, objs, stack[roots[k]])
      modifies words
      ensures MarkingState(words[..], h0, objs)
      ensures MarkedIn(words[..], objs) == Elems(vecPtrs) && NoDup(vecPtrs)
      ensures forall y :: y in vecPtrs <==> Reachable(h0, start, objs, RootTargets(stack[..], roots, start), y)
    {
      ghost var targets := RootTargets(stack[..], roots, start);
      vecPtrs := [];
      assert MarkedIn(words[..], objs) == {};
      for k := 0 to |roots|
        invariant MarkingState(words[..], h0, objs)
        invariant MarkedIn(words[..], objs) == Elems(vecPtrs) && NoDup(vecPtrs)
        invariant BlackClosed(h0, start, Elems(vecPtrs), {})
        invariant forall j :: 0 <= j < k ==> Target(start, stack[roots[j]]) in Elems(vecPtrs)
        invariant forall y :: y in vecPtrs ==> Reachable(h0, start, objs, targets, y)
      {
        var rootAddr := Target(start, stack[roots[k]]);
        assert rootAddr in targets;
        var found := Mark(rootAddr, objs, h0, {});
        MarkRootStep(h0, start, objs, targets, rootAddr, vecPtrs, found);
        assert rootAddr in Elems(vecPtrs + found) && Elems(vecPtrs) <= Elems(vecPtrs + found);
        vecPtrs := vecPtrs + found;
      }
      assert targets <= Elems(vecPtrs);
      forall y | Reachable(h0, start, objs, targets, y)
        ensures y in vecPtrs
      {
        ClosedSetHoldsReachable(h0, start, objs, targets, Elems(vecPtrs), y);
      }
    }

    /** `fwd_headers`: walks the live objects in order with a running
        destination `move_to`, overwriting each header with the reference to
        its destination and advancing by `2 + size` words. */
    method FwdHeaders(xs: seq<int>, ghost objs: set<int>)
      requires StartOk(start, words.Length) && LiveOrder(words[..], objs, xs)
      modifies words
      ensures words[..] == FwdHeadersSpec(old(words[..]), start, xs)
    {
      ghost var h := words[..];
      var moveTo := start;
      for k := 0 to |xs|
        invariant moveTo == start + 8 * Dest(h, xs, k)
        invariant words[..] == FwdHeadersSpec(h, start, xs[..k])
      {
        var from := xs[k];
        FwdHeadersStep(h, start, objs, xs, k);
        var size := words[from + 1];
        words[from] := moveTo + 1;
        moveTo := moveTo + 8 * (2 + size as int);
      }
      assert xs[..|xs|] == xs;
    }

    /** The loop over the root slots of `snek_gc`: `fwd_reference` replaces
        each recorded slot's word by the header of the object it refers to. */
    method FwdRoots(stack: array<Word>, roots: seq<int>)
      requires stack != words && NoDup(roots)
      requires forall k :: 0 <= k < |roots| ==>
        0 <= roots[k] < stack.Length && IsRef(stack[roots[k]]) && 0 <= Target(start, stack[roots[k]]) < words.Length
      modifies stack
      ensures forall s :: 0 <= s < stack.Length ==>
        stack[s] == if s in roots then FwdWord(words[..], start, old(stack[s])) else old(stack[s])
    {
      for k := 0 to |roots|
        invariant forall s :: 0 <= s < stack.Length ==>
          stack[s] == if s in roots[..k] then FwdWord(words[..], start, old(stack[s])) else old(stack[s])
      {
        var slot := roots[k];
        assert slot !in roots[..k];
        stack[slot] := words[Target(start, stack[slot])];
        assert roots[..k + 1] == roots[..k] + [slot];
      }
      assert roots[..|roots|] == roots;
    }

    /** `fwd_vec`: each element of the object at `x` that passes the
        reference test is replaced by the header of the object it refers
        to; nothing else changes. */
    method FwdVec(x: int, ghost objs: set<int>)
      requires Layout(words[..], objs) && x in objs
      requires forall j :: 0 <= j < words[x + 1] && IsRef(Elem(words[..], x, j)) ==>
        PointsTo(start, objs, Elem(words[..], x, j)) && 0 <= Target(start, Elem(words[..], x, j)) < words.Length
      modifies words
      ensures forall j :: 0 <= j < old(words[x + 1]) ==>
        Elem(words[..], x, j) == FwdWord(old(words[..]), start, Elem(old(words[..]), x, j))
      ensures forall p :: 0 <= p < words.Length && !(x + 2 <= p < x + 2 + old(words[x + 1])) ==> words[p] == old(words[p])
    {
      ghost var h := words[..];
      assert ObjectAt(h, x);
      var size := words[x + 1];
      for i := 0 to size
        invariant forall j :: 0 <= j < i ==> Elem(words[..], x, j) == FwdWord(h, start, Elem(h, x, j))
        invariant forall p :: 0 <= p < words.Length && !(x + 2 <= p < x + 2 + i) ==> words[p] == h[p]
      {
        var val := words[x + 2 + i];
        assert val == Elem(h, x, i);
        if val % 2 == 1 && val != 1 {
          var t := Target(start, val);
          assert t in objs && ObjectAt(h, t);
          if x < t < x + Extent(h, x) {
            InsideIsNoStart(h, objs, x, t);
          }
          words[x + 2 + i] := words[t];
        }
      }
    }

    /** The loop of `snek_gc` that calls `fwd_vec` on every live object:
        every element that passes the reference test is forwarded through
        the header of its object, and no other word changes. */
    method FwdVecs(xs: seq<int>, ghost objs: set<int>)
      requires LiveRefsOk(words[..], start, objs, xs)
      modifies words
      ensures forall i, j :: 0 <= i < |xs| && ObjectAt(old(words[..]), xs[i]) && 0 <= j < old(words[xs[i] + 1]) ==>
        Elem(words[..], xs[i], j) == FwdWord(old(words[..]), start, Elem(old(words[..]), xs[i], j))
      ensures forall p :: 0 <= p < words.Length && !InElemsOf(old(words[..]), xs, p) ==> words[p] == old(words[p])
    {
      ghost var h := words[..];
      for k := 0 to |xs|
        invariant FwdVecsDone(h, start, objs, xs, k, words[..])
      {
        FwdVecsPre(h, start, objs, xs, k, words[..]);
        ghost var c := words[..];
        FwdVec(xs[k], objs);
        FwdVecsStep(h, start, objs, xs, k, c, words[..]);
      }
      assert xs[..|xs|] == xs;
    }

    /** The compaction loop of `snek_gc`: for each live object in ascending
        order it reads the destination from the header, sets the header to
        0, copies words `first` .. size + 1 to the destination in ascending
        order, and advances the frontier by `2 + size` words. The source
        copies from `first` = 1; `first` = 0 is the corrected loop that also
        copies the cleared header. */
    method Compact(xs: seq<int>, ghost objs: set<int>, first: int) returns (heapPtr: int)
      requires ReadyToCompact(words[..], start, objs, xs) && (first == 0 || first == 1)
      modifies words
      ensures words[..] == CompactFold(old(words[..]), start, xs, first)
      ensures heapPtr == start + 8 * Packed(old(words[..]), xs)
    {
      ghost var h := words[..];
      heapPtr := start;
      for k := 0 to |xs|
        invariant words[..] == CompactFold(h, start, xs[..k], first)
        invariant heapPtr == start + 8 * Dest(h, xs, k)
      {
        CompactLoopStep(h, start, objs, xs, k, first);
        var size := words[xs[k] + 1];
        MoveObject(xs[k], first);
        heapPtr := heapPtr + 8 * (2 + size as int);
      }
      assert xs[..|xs|] == xs;
    }

    /** The body of the compaction loop for the object at `from`: the
        destination is read from the header, the header is set to 0, and
        words `first` .. size + 1 are copied down in ascending order. */
    method MoveObject(from: int, first: int)
      requires (first == 0 || first == 1) && 0 <= from && from + 1 < words.Length
      requires 0 <= Target(start, words[from]) <= from && from + 2 + words[from + 1] as int <= words.Length
      modifies words
      ensures words[..] == MoveStep(old(words[..]), start, from, first)
    {
      var to := Target(start, words[from]);
      var size := words[from + 1];
      words[from] := 0;
      ghost var g := words[..];
      for i := first to 2 + size as int
        invariant CopyUp(words[..], from, to, i, 2 + size as int) == CopyUp(g, from, to, first, 2 + size as int)
      {
        words[to + i] := words[from + i];
      }
    }

    /** The first half of `snek_gc`: the root scan, the marking from each
        root and the sort of the marked objects into address order. */
    method Trace(stack: array<Word>, base: int, rsp: int, ghost objs: set<int>) returns (roots: seq<int>, live: seq<int>)
      requires stack != words && 0 <= rsp && base < stack.Length
      requires EntryHeap(words[..], start, objs)
      requires forall s :: rsp <= s <= base && IsRootWord(start, End(), stack[s]) ==> PointsTo(start, objs, stack[s])
      modifies words
      ensures roots == RootSlots(stack[..], base, rsp, start, End()) && NoDup(roots)
      ensures forall k :: 0 <= k < |roots| ==>
        0 <= roots[k] < stack.Length && IsRef(stack[roots[k]]) && 0 <= Target(start, stack[roots[k]]) < words.Length
      ensures Increasing(live)
      ensures forall y :: y in live <==> Reachable(old(words[..]), start, objs, RootTargets(stack[..], roots, start), y)
      ensures LiveClosed(old(words[..]), start, live)
      ensures LiveOrder(old(words[..]), objs, live) && LiveOrder(words[..], objs, live)
      ensures SameBodies(old(words[..]), words[..], objs)
      ensures forall k :: 0 <= k <= |live| ==> Dest(words[..], live, k) == Dest(old(words[..]), live, k)
      ensures forall y :: y in objs ==> words[y] == if y in live then 1 else 0
    {
      ghost var h0 := words[..];
      roots := FindRootPtrs(stack, base, rsp);
      RootsPointToObjects(h0, stack[..], base, rsp, start, End(), objs, roots);
      var vecPtrs := MarkRoots(stack, roots, objs, h0);
      live := SortAscending(vecPtrs);
      MarkedHeap(h0, words[..], start, objs, vecPtrs, live);
      ReachableClosed(h0, start, objs, RootTargets(stack[..], roots, start), live);
      forall y | y in objs
        ensures words[y] == if y in live then 1 else 0
      {
        assert ObjectAt(h0, y);
        assert y in live <==> y in MarkedIn(words[..], objs);
      }
    }

    /** The root loop of `snek_gc`: every root slot is rewritten to the
        new address its object's header holds. */
    method ForwardRootSlots(stack: array<Word>, base: int, rsp: int, roots: seq<int>, live: seq<int>,
                            ghost objs: set<int>, ghost h0: seq<Word>)
      requires stack != words && 0 <= rsp && base < stack.Length && words.Length == |h0|
      requires forall s :: rsp <= s <= base && IsRootWord(start, End(), stack[s]) ==> PointsTo(start, objs, stack[s])
      requires roots == RootSlots(stack[..], base, rsp, start, End()) && NoDup(roots)
      requires forall k :: 0 <= k < |roots| ==>
        0 <= roots[k] < stack.Length && IsRef(stack[roots[k]]) && 0 <= Target(start, stack[roots[k]]) < words.Length
      requires forall y :: y in live <==> Reachable(h0, start, objs, RootTargets(stack[..], roots, start), y)
      requires forall k :: 0 <= k < |live| ==> 0 <= live[k] < words.Length && words[live[k]] as int == Ref(start, Dest(h0, live, k))
      modifies stack
      ensures forall s :: rsp <= s <= base && IsRootWord(start, End(), old(stack[s])) ==> Target(start, old(stack[s])) in live
      ensures forall s :: 0 <= s < stack.Length ==>
        stack[s] as int == if rsp <= s <= base && IsRootWord(start, End(), old(stack[s]))
                           then Relocated(h0, start, live, old(stack[s]))
                           else old(stack[s]) as int
    {
      ghost var s0 := stack[..];
      FwdRoots(stack, roots);
      RootsRelocated(h0, words[..], s0, stack[..], base, rsp, start, End(), objs, roots, live);
    }

    /** The forwarding stages of `snek_gc`: `fwd_headers` on the live
        objects `live`, `fwd_reference` on the recorded root slots and
        `fwd_vec` on every live object. `h0` is the heap `snek_gc` was
        entered with; `h2` is the heap as `fwd_headers` leaves it. */
    method Forward(stack: array<Word>, base: int, rsp: int, roots: seq<int>, live: seq<int>,
                   ghost objs: set<int>, ghost h0: seq<Word>) returns (ghost h2: seq<Word>)
      requires stack != words && 0 <= rsp && base < stack.Length
      requires Graph(h0, objs)
      requires forall s :: rsp <= s <= base && IsRootWord(start, End(), stack[s]) ==> PointsTo(start, objs, stack[s])
      requires roots == RootSlots(stack[..], base, rsp, start, End()) && NoDup(roots)
      requires forall k :: 0 <= k < |roots| ==>
        0 <= roots[k] < stack.Length && IsRef(stack[roots[k]]) && 0 <= Target(start, stack[roots[k]]) < words.Length
      requires forall y :: y in live <==> Reachable(h0, start, objs, RootTargets(stack[..], roots, start), y)
      requires LiveClosed(h0, start, live)
      requires LiveOrder(h0, objs, live) && LiveOrder(words[..], objs, live)
      requires SameBodies(h0, words[..], objs)
      requires forall k :: 0 <= k <= |live| ==> Dest(words[..], live, k) == Dest(h0, live, k)
      modifies words, stack
      ensures BeforeCompaction(h0, h2, words[..], start, objs, live)
      ensures forall s :: rsp <= s <= base && IsRootWord(start, End(), old(stack[s])) ==> Target(start, old(stack[s])) in live
      ensures forall s :: 0 <= s < stack.Length ==>
        stack[s] as int == if rsp <= s <= base && IsRootWord(start, End(), old(stack[s]))
                           then Relocated(h0, start, live, old(stack[s]))
                           else old(stack[s]) as int
    {
      ghost var h1 := words[..];
      FwdHeaders(live, objs);
      h2 := words[..];
      ForwardedHeaders(h0, h1, h2, start, objs, live);
      ForwardRootSlots(stack, base, rsp, roots, live, objs, h0);
      ghost var s1 := stack[..];
      FwdVecs(live, objs);
      ForwardedState(h0, h2, words[..], start, objs, live);
      assert stack[..] == s1;
    }

    /** `snek_gc`: scans the stack for roots, marks what they reach, sorts
        the live objects, forwards their headers, the root slots and their
        elements, and compacts them, returning the new frontier. */
    method Collect(stack: array<Word>, base: int, rsp: int, ghost objs: set<int>) returns (heapPtr: int, ghost live: seq<int>)
      requires stack != words && 0 <= rsp && base < stack.Length
      requires EntryHeap(words[..], start, objs)
      requires forall s :: rsp <= s <= base && IsRootWord(start, End(), stack[s]) ==> PointsTo(start, objs, stack[s])
      modifies words, stack
      ensures Increasing(live)
      ensures forall y :: y in live <==>
        Reachable(old(words[..]), start, objs, RootTargets(old(stack[..]), RootSlots(old(stack[..]), base, rsp, start, End()), start), y)
      ensures forall s :: rsp <= s <= base && IsRootWord(start, End(), old(stack[s])) ==> Target(start, old(stack[s])) in live
      ensures MovedTo(old(words[..]), words[..], start, live)
      ensures heapPtr == start + 8 * Packed(old(words[..]), live)
      ensures start <= heapPtr <= End()
      ensures RootSlots(old(stack[..]), base, rsp, start, End()) == [] ==> heapPtr == start
      ensures forall s :: 0 <= s < stack.Length ==>
        stack[s] as int == if rsp <= s <= base && IsRootWord(start, End(), old(stack[s]))
                           then Relocated(old(words[..]), start, live, old(stack[s]))
                           else old(stack[s]) as int
    {
      ghost var h0 := words[..];
      var roots, sorted := Trace(stack, base, rsp, objs);
      live := sorted;
      ghost var h2 := Forward(stack, base, rsp, roots, sorted, objs, h0);
      ghost var h3 := words[..];
      heapPtr := Compact(sorted, objs, 1);
      CompactedHeap(h0, h2, h3, words[..], start, objs, live, 1);
      DestBelow(h0, objs, live, |live|);
      assert live[..|live|] == live;
      if roots == [] {
        NoRootsNothingLive(h0, start, objs, old(stack[..]), live);
      }
    }

    /** `snek_try_gc`: runs the collector, then fails with out of memory
        when the `count` words requested do not fit between the new
        frontier and the end of the heap; otherwise the new frontier is
        where the program allocates. */
    method TryGc(count: int, stack: array<Word>, base: int, rsp: int, ghost objs: set<int>) returns (r: AllocResult, ghost live: seq<int>)
      requires 0 <= count
      requires stack != words && 0 <= rsp && base < stack.Length
      requires EntryHeap(words[..], start, objs)
      requires forall s :: rsp <= s <= base && IsRootWord(start, End(), stack[s]) ==> PointsTo(start, objs, stack[s])
      modifies words, stack
      ensures forall y :: y in live <==>
        Reachable(old(words[..]), start, objs, RootTargets(old(stack[..]), RootSlots(old(stack[..]), base, rsp, start, End()), start), y)
      ensures r.Allocated? <==> Packed(old(words[..]), live) + count <= words.Length
      ensures r.Allocated? ==> r.heapPtr == start + 8 * Packed(old(words[..]), live)
      ensures r.Fatal? ==> r.exit == OUT_OF_MEMORY_EXIT
      ensures count > words.Length ==> r.Fatal?
      ensures forall s :: rsp <= s <= base && IsRootWord(start, End(), old(stack[s])) ==> Target(start, old(stack[s])) in live
      ensures MovedTo(old(words[..]), words[..], start, live)
      ensures forall s :: 0 <= s < stack.Length ==>
        stack[s] as int == if rsp <= s <= base && IsRootWord(start, End(), old(stack[s]))
                           then Relocated(old(words[..]), start, live, old(stack[s]))
                           else old(stack[s]) as int
    {
      var heapPtr;
      heapPtr, live := Collect(stack, base, rsp, objs);
      if heapPtr + 8 * count > End() {
        r := Fatal(OUT_OF_MEMORY_EXIT);
      } else {
        r := Allocated(heapPtr);
      }
    }
  }
}
