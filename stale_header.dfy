/** The header word a moved object is left with. The compaction loop of
    `snek_gc` clears the header at the object's old place and copies words
    1 .. size + 1, so at the new place word 0 keeps whatever the heap held
    there before. `mark` takes an odd header for "already marked", so such a
    stale word can hide a live object from the next collection. The
    corrected loop copies from word 0, after the header has been cleared. */
module StaleHeader {
  import opened Values
  import opened HeapLayout
  import opened Collector

  /** Where the live objects lie after compaction. */
  ghost function Compacted(h: seq<Word>, live: seq<int>): set<int>
  {
    set k | 0 <= k < |live| :: Dest(h, live, k)
  }

  // ---------------------------------------------------------------------
  // The corrected loop
  // ---------------------------------------------------------------------

  /** Destinations grow with the rank of the live object. */
  lemma DestOrder(h0: seq<Word>, objs: set<int>, live: seq<int>, i: int, j: int)
    requires LiveOrder(h0, objs, live) && 0 <= i < j < |live|
    ensures Dest(h0, live, i) + Extent(h0, live[i]) <= Dest(h0, live, j)
  {
    assert forall k :: 0 <= k < |live| ==> ObjectAt(h0, live[k]);
    DestNext(h0, live, i);
    DestMonotone(h0, live, i + 1, j);
  }

  /** The `k`-th live object at its destination in `h4` has its extent
      in `h0`. */
  lemma MovedObjectAt(h0: seq<Word>, h4: seq<Word>, start: int, live: seq<int>, k: int)
    requires MovedTo(h0, h4, start, live) && 0 <= k < |live|
    ensures ObjectAt(h4, Dest(h0, live, k)) && Extent(h4, Dest(h0, live, k)) == Extent(h0, live[k])
  {
    var d := Dest(h0, live, k);
    assert ObjectAt(h0, live[k]) && 0 <= d && d + Extent(h0, live[k]) <= |h4|;
    assert h4[d + 1] == h0[live[k] + 1];
  }

  /** The moved objects are laid out without overlap. */
  lemma MovedLayout(h0: seq<Word>, h4: seq<Word>, start: int, objs: set<int>, live: seq<int>)
    requires LiveOrder(h0, objs, live) && MovedTo(h0, h4, start, live)
    ensures Layout(h4, Compacted(h0, live))
  {
    var n := Compacted(h0, live);
    forall x | x in n
      ensures ObjectAt(h4, x)
    {
      var k :| 0 <= k < |live| && x == Dest(h0, live, k);
      MovedObjectAt(h0, h4, start, live, k);
    }
    forall x, y | x in n && y in n && x < y
      ensures x + Extent(h4, x) <= y
    {
      var i :| 0 <= i < |live| && x == Dest(h0, live, i);
      var j :| 0 <= j < |live| && y == Dest(h0, live, j);
      MovedObjectAt(h0, h4, start, live, i);
      if i < j {
        DestOrder(h0, objs, live, i, j);
      } else if j < i {
        DestOrder(h0, objs, live, j, i);
      }
    }
  }

  /** A relocated element that passes the reference test refers to the
      new place of a live object. */
  lemma RelocatedPointsTo(h0: seq<Word>, h4: seq<Word>, start: int, live: seq<int>, k: int, j: int)
    requires MovedTo(h0, h4, start, live) && 0 <= k < |live| && 0 <= j < h0[live[k] + 1]
    requires IsRef(Elem(h4, Dest(h0, live, k), j))
    ensures PointsTo(start, Compacted(h0, live), Elem(h4, Dest(h0, live, k), j))
  {
    var v := Elem(h0, live[k], j);
    if IsRef(v) {
      var d := NewIndex(h0, live, Target(start, v));
      assert d in Compacted(h0, live);
      TargetOfRef(start, d);
    }
  }

  /** Every moved element that passes the reference test refers to a moved
      object. */
  lemma MovedClosed(h0: seq<Word>, h4: seq<Word>, start: int, live: seq<int>)
    requires MovedTo(h0, h4, start, live)
    ensures Closed(h4, start, Compacted(h0, live))
  {
    forall x, j | x in Compacted(h0, live) && ObjectAt(h4, x) && 0 <= j < h4[x + 1] && IsRef(Elem(h4, x, j))
      ensures PointsTo(start, Compacted(h0, live), Elem(h4, x, j))
    {
      var k :| 0 <= k < |live| && x == Dest(h0, live, k);
      MovedObjectAt(h0, h4, start, live, k);
      RelocatedPointsTo(h0, h4, start, live, k, j);
    }
  }

  /** The corrected compaction leaves a heap that `snek_gc` may be entered
      with again: the moved objects are laid out, closed under references,
      and every header is 0. */
  lemma CorrectedCompactionRestoresEntry(h0: seq<Word>, h2: seq<Word>, h3: seq<Word>, start: int, objs: set<int>, live: seq<int>)
    requires BeforeCompaction(h0, h2, h3, start, objs, live) && StartOk(start, |h0|)
    ensures EntryHeap(CompactFold(h3, start, live, 0), start, Compacted(h0, live))
  {
    var h4 := CompactFold(h3, start, live, 0);
    CompactedHeap(h0, h2, h3, h4, start, objs, live, 0);
    MovedLayout(h0, h4, start, objs, live);
    MovedClosed(h0, h4, start, live);
    CompactFoldPrefix(h3, start, objs, live, |live|, 0);
    assert live[..|live|] == live;
    forall y | y in Compacted(h0, live)
      ensures h4[y] == 0
    {
      var k :| 0 <= k < |live| && y == Dest(h0, live, k);
      assert Dest(h3, live, k) == Dest(h0, live, k);
    }
  }

  // ---------------------------------------------------------------------
  // The loop as written
  // ---------------------------------------------------------------------

  /** A heap at HEAP_START = 8 with a garbage object of size 0 at word 0,
      an object A of size 3 at word 2 holding [nil, B, nil], and an object B
      of size 0 at word 7. A is the only root. */
  const EX_START: int := 8
  const EX_OBJS: set<int> := {0, 2, 7}
  const EX_LIVE: seq<int> := [2, 7]
  const EX_ENTRY: seq<Word> := [0, 0, 0, 3, NIL, 65, NIL, 0, 0]
  /** After `fwd_headers`: A goes to word 0, B to word 5. */
  const EX_HEADERS: seq<Word> := [0, 0, 9, 3, NIL, 65, NIL, 49, 0]
  /** After `fwd_vec`: A's reference to B is the reference to word 5. */
  const EX_FORWARDED: seq<Word> := [0, 0, 9, 3, NIL, 49, NIL, 49, 0]

  /** The example heap is one `snek_gc` may be entered with. */
  lemma ExampleEntry()
    ensures EntryHeap(EX_ENTRY, EX_START, EX_OBJS)
  {
    var h := EX_ENTRY;
    assert Extent(h, 0) == 2 && Extent(h, 2) == 5 && Extent(h, 7) == 2;
    assert Elem(h, 2, 0) == NIL && Elem(h, 2, 1) == 65 && Elem(h, 2, 2) == NIL;
  }

  /** In the example, A and B are what is reachable from A. */
  lemma ExampleReachable()
    ensures forall y :: y in EX_LIVE <==> Reachable(EX_ENTRY, EX_START, EX_OBJS, {2}, y)
  {
    var h := EX_ENTRY;
    ExampleEntry();
    assert Elem(h, 2, 0) == NIL && Elem(h, 2, 1) == 65 && Elem(h, 2, 2) == NIL;
    assert Edge(h, EX_START, EX_OBJS, 2, 7);
    ReachSelf(h, EX_START, EX_OBJS, 2);
    ReachSelf(h, EX_START, EX_OBJS, 7);
    ReachStep(h, EX_START, EX_OBJS, 2, 7, 7);
    assert ChildrenIn(h, EX_START, 2, {2, 7});
    assert ChildrenIn(h, EX_START, 7, {2, 7});
    forall y | Reachable(h, EX_START, EX_OBJS, {2}, y)
      ensures y in EX_LIVE
    {
      ClosedSetHoldsReachable(h, EX_START, EX_OBJS, {2}, {2, 7}, y);
    }
  }

  lemma ExampleDests(h: seq<Word>)
    requires |h| == 9 && h[3] == 3 && h[8] == 0
    ensures Dest(h, EX_LIVE, 0) == 0 && Dest(h, EX_LIVE, 1) == 5 && Dest(h, EX_LIVE, 2) == 7
  {
    assert EX_LIVE[..0] == [] && EX_LIVE[..1] == [2] && EX_LIVE[..2] == EX_LIVE && [2][..0] == [];
    assert Packed(h, [2]) == Packed(h, [2][..0]) + Extent(h, 2) == 5;
  }

  /** In the example, `fwd_headers` changes only the live headers, each to
      its forwarding reference, and A's reference to B stays valid. */
  lemma ExampleHeadersForwarded()
    ensures SameBodies(EX_ENTRY, EX_HEADERS, EX_OBJS)
    ensures forall k :: 0 <= k < |EX_LIVE| ==>
      0 <= EX_LIVE[k] < |EX_HEADERS| && EX_HEADERS[EX_LIVE[k]] as int == Ref(EX_START, Dest(EX_ENTRY, EX_LIVE, k))
    ensures LiveRefsOk(EX_HEADERS, EX_START, EX_OBJS, EX_LIVE)
  {
    var h0, h2 := EX_ENTRY, EX_HEADERS;
    ExampleEntry();
    ExampleDests(h0);
    LayoutFromSizes(h0, h2, EX_OBJS);
    assert LiveOrder(h2, EX_OBJS, EX_LIVE);
    assert Elem(h2, 2, 0) == NIL && Elem(h2, 2, 1) == 65 && Elem(h2, 2, 2) == NIL;
    assert PointsTo(EX_START, EX_OBJS, 65);
  }

  /** In the example, `fwd_vec` rewrites A's reference to B through B's
      forwarded header and leaves the headers and sizes alone. */
  lemma ExampleElementsForwarded()
    ensures forall x :: x in EX_OBJS ==>
      0 <= x && x + 1 < |EX_FORWARDED| && EX_FORWARDED[x] == EX_HEADERS[x] && EX_FORWARDED[x + 1] == EX_ENTRY[x + 1]
    ensures ReadyToCompact(EX_FORWARDED, EX_START, EX_OBJS, EX_LIVE)
    ensures forall k :: 0 <= k <= |EX_LIVE| ==> Dest(EX_FORWARDED, EX_LIVE, k) == Dest(EX_ENTRY, EX_LIVE, k)
    ensures forall i, j :: 0 <= i < |EX_LIVE| && ObjectAt(EX_HEADERS, EX_LIVE[i]) && 0 <= j < EX_HEADERS[EX_LIVE[i] + 1] ==>
      Elem(EX_FORWARDED, EX_LIVE[i], j) == FwdWord(EX_HEADERS, EX_START, Elem(EX_HEADERS, EX_LIVE[i], j))
  {
    var h0, h2, h3 := EX_ENTRY, EX_HEADERS, EX_FORWARDED;
    ExampleEntry();
    ExampleDests(h0);
    ExampleDests(h3);
    LayoutFromSizes(h0, h3, EX_OBJS);
    assert LiveOrder(h3, EX_OBJS, EX_LIVE);
    assert Elem(h2, 2, 0) == NIL && Elem(h2, 2, 1) == 65 && Elem(h2, 2, 2) == NIL;
    assert Elem(h3, 2, 0) == NIL && Elem(h3, 2, 1) == 49 && Elem(h3, 2, 2) == NIL;
    assert FwdWord(h2, EX_START, 65) == 49;
  }

  /** In the example, the forwarding stages leave the states above. */
  lemma ExampleForwarded()
    ensures BeforeCompaction(EX_ENTRY, EX_HEADERS, EX_FORWARDED, EX_START, EX_OBJS, EX_LIVE)
  {
    ExampleEntry();
    ExampleReachable();
    ExampleHeadersForwarded();
    ExampleElementsForwarded();
    assert LiveClosed(EX_ENTRY, EX_START, EX_LIVE) by {
      ReachableClosed(EX_ENTRY, EX_START, EX_OBJS, {2}, EX_LIVE);
    }
  }

  /** Whatever the forwarding stages leave in the example, the as-written
      compaction puts A at word 0 and B at word 5, and B's new header is the
      odd word 49 that A's element held there: the heap is not one
      `snek_gc` may be entered with, and `mark` would take B for marked. */
  lemma AsWrittenLeavesStaleHeader(h2: seq<Word>, h3: seq<Word>)
    requires BeforeCompaction(EX_ENTRY, h2, h3, EX_START, EX_OBJS, EX_LIVE)
    ensures Compacted(EX_ENTRY, EX_LIVE) == {0, 5}
    ensures CompactFold(h3, EX_START, EX_LIVE, 1)[5] == 49 && IsRef(49)
    ensures !EntryHeap(CompactFold(h3, EX_START, EX_LIVE, 1), EX_START, Compacted(EX_ENTRY, EX_LIVE))
  {
    var h := EX_ENTRY;
    assert EX_LIVE[..0] == [] && EX_LIVE[..1] == [2] && EX_LIVE[..2] == EX_LIVE && [2][..0] == [];
    assert Dest(h, EX_LIVE, 0) == 0 && Dest(h, EX_LIVE, 1) == 5;
    assert Compacted(h, EX_LIVE) == {0, 5} by {
      assert Dest(h, EX_LIVE, 0) in Compacted(h, EX_LIVE);
      assert Dest(h, EX_LIVE, 1) in Compacted(h, EX_LIVE);
    }
    // The words of A and B before compaction.
    assert h3[2] == h2[2] && h2[2] as int == Ref(EX_START, 0);
    assert h3[7] == h2[7] && h2[7] as int == Ref(EX_START, 5);
    assert h3[3] == 3 && h3[8] == 0;
    assert ObjectAt(h2, 2) && Elem(h2, 2, 1) == 65;
    assert Elem(h3, 2, 1) == FwdWord(h2, EX_START, 65) == 49;
    // Moving A: word 5 lies beyond the words copied to 1 .. 4.
    var c1 := MoveStep(h3, EX_START, 2, 1);
    assert CompactFold(h3, EX_START, EX_LIVE[..1], 1) == c1;
    MoveStepAt(h3, EX_START, 2, 0, 1, 5);
    MoveStepAt(h3, EX_START, 2, 0, 1, 7);
    MoveStepAt(h3, EX_START, 2, 0, 1, 8);
    // Moving B: only its size word is copied, to word 6.
    MoveStepAt(c1, EX_START, 7, 5, 1, 5);
    assert CompactFold(h3, EX_START, EX_LIVE, 1) == MoveStep(c1, EX_START, 7, 1);
  }
}
