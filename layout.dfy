/** The heap as the collector sees it: a run of words holding objects
    (header word, size word, elements), the graph their references form,
    and the pure specifications of the collector's stages over a snapshot
    `h` of the heap. Word index `x` stands for the address `start + 8 * x`. */
module HeapLayout {
  import opened Values

  // ---------------------------------------------------------------------
  // Addresses
  // ---------------------------------------------------------------------

  /** The tagged reference word for the object at word index `x`. */
  function Ref(start: int, x: int): int { start + 8 * x + 1 }

  /** The word index addressed by `v - 1`. */
  function Target(start: int, v: int): int { (v - 1 - start) / 8 }

  lemma TargetOfRef(start: int, x: int)
    ensures Target(start, Ref(start, x)) == x
  {
  }

  /** HEAP_START is a non-null, word-aligned address and the whole heap is
      addressable. */
  predicate StartOk(start: int, n: int) { 0 < start && start % 8 == 0 && start + 8 * n < TWO64 }

  /** `v` is the reference word of one of the objects in `objs`. */
  predicate PointsTo(start: int, objs: set<int>, v: int)
  {
    Target(start, v) in objs && Ref(start, Target(start, v)) == v
  }

  /** Every reference to an object of the heap passes the collector's
      reference test. */
  lemma RefIsRef(start: int, n: int, x: int)
    requires StartOk(start, n) && 0 <= x < n
    ensures 0 <= Ref(start, x) < TWO64 && IsRef(Ref(start, x) as Word)
  {
    var m := start / 8;
    assert start == 8 * m;
    OddWord(4 * m + 4 * x);
  }

  // ---------------------------------------------------------------------
  // Objects
  // ---------------------------------------------------------------------

  /** Word `i` of the object at `x`: 0 is the header, 1 the size. */
  function WordOf(h: seq<Word>, x: int, i: int): Word
    requires 0 <= x + i < |h|
  {
    h[x + i]
  }

  /** Element `j` of the object at `x`. */
  function Elem(h: seq<Word>, x: int, j: int): Word
    requires 0 <= x + 2 + j < |h|
  {
    h[x + 2 + j]
  }

  /** The object at `x` (header, size, elements) lies inside the heap. */
  ghost predicate ObjectAt(h: seq<Word>, x: int)
  {
    0 <= x && x + 2 <= |h| && x + 2 + h[x + 1] <= |h|
  }

  /** The number of words the object at `x` occupies, `2 + size`. */
  function Extent(h: seq<Word>, x: int): int
  {
    if 0 <= x && x + 1 < |h| then 2 + h[x + 1] as int else 2
  }

  /** The objects of `objs` lie inside the heap and do not overlap. */
  ghost predicate Layout(h: seq<Word>, objs: set<int>)
  {
    (forall x :: x in objs ==> ObjectAt(h, x)) &&
    (forall x, y :: x in objs && y in objs && x < y ==> x + Extent(h, x) <= y)
  }

  /** Every element of an object that passes the reference test refers to
      an object of `objs`. The collector follows such elements without a
      range check, so this is what it demands of the heap. */
  ghost predicate Closed(h: seq<Word>, start: int, objs: set<int>)
  {
    forall x, j :: x in objs && ObjectAt(h, x) && 0 <= j < h[x + 1] && IsRef(Elem(h, x, j)) ==>
      PointsTo(start, objs, Elem(h, x, j))
  }

  /** What `snek_gc` demands of the heap it is entered with: laid out,
      closed under references, and with every header 0. */
  ghost predicate EntryHeap(h: seq<Word>, start: int, objs: set<int>)
  {
    StartOk(start, |h|) && Layout(h, objs) && Closed(h, start, objs) &&
    forall y :: y in objs ==> h[y] == 0
  }

  /** Header and size words of other objects never lie inside an object. */
  lemma InsideIsNoStart(h: seq<Word>, objs: set<int>, x: int, p: int)
    requires Layout(h, objs) && x in objs && x < p < x + Extent(h, x)
    ensures p !in objs
  {
  }

  /** Two heaps with the same size words have the same layout. */
  lemma LayoutFromSizes(h: seq<Word>, g: seq<Word>, objs: set<int>)
    requires Layout(h, objs) && |g| == |h|
    requires forall x :: x in objs ==> g[x + 1] == h[x + 1]
    ensures Layout(g, objs)
    ensures forall x :: x in objs ==> Extent(g, x) == Extent(h, x)
  {
    assert forall x :: x in objs ==> ObjectAt(h, x);
    assert forall x :: x in objs ==> Extent(g, x) == Extent(h, x);
  }

  // ---------------------------------------------------------------------
  // The object graph and reachability
  // ---------------------------------------------------------------------

  /** Some element of the object at `a` is a reference to the object at `b`. */
  ghost predicate Edge(h: seq<Word>, start: int, objs: set<int>, a: int, b: int)
  {
    a in objs && b in objs && ObjectAt(h, a) &&
    exists j :: 0 <= j < h[a + 1] && Elem(h, a, j) == Ref(start, b)
  }

  /** A chain of objects, each referring to the next. */
  ghost predicate IsPath(h: seq<Word>, start: int, objs: set<int>, p: seq<int>)
    decreases |p|
  {
    |p| > 0 && p[0] in objs &&
    (|p| == 1 || (Edge(h, start, objs, p[0], p[1]) && IsPath(h, start, objs, p[1..])))
  }

  ghost predicate ReachFrom(h: seq<Word>, start: int, objs: set<int>, a: int, b: int)
  {
    exists p :: IsPath(h, start, objs, p) && p[0] == a && p[|p| - 1] == b
  }

  /** `b` is reachable from one of the objects in `roots`. */
  ghost predicate Reachable(h: seq<Word>, start: int, objs: set<int>, roots: set<int>, b: int)
  {
    exists a :: a in roots && ReachFrom(h, start, objs, a, b)
  }

  lemma ReachSelf(h: seq<Word>, start: int, objs: set<int>, a: int)
    requires a in objs
    ensures ReachFrom(h, start, objs, a, a)
  {
    assert IsPath(h, start, objs, [a]);
  }

  lemma ReachStep(h: seq<Word>, start: int, objs: set<int>, a: int, c: int, b: int)
    requires Edge(h, start, objs, a, c) && ReachFrom(h, start, objs, c, b)
    ensures ReachFrom(h, start, objs, a, b)
  {
    var p :| IsPath(h, start, objs, p) && p[0] == c && p[|p| - 1] == b;
    var q := [a] + p;
    assert q[1..] == p;
    assert IsPath(h, start, objs, q);
  }

  lemma {:induction false} PathExtend(h: seq<Word>, start: int, objs: set<int>, p: seq<int>, b: int)
    requires IsPath(h, start, objs, p) && Edge(h, start, objs, p[|p| - 1], b)
    ensures IsPath(h, start, objs, p + [b])
    decreases |p|
  {
    if |p| == 1 {
      assert (p + [b])[1..] == [b];
    } else {
      PathExtend(h, start, objs, p[1..], b);
      assert (p + [b])[1..] == p[1..] + [b];
    }
  }

  /** What a reachable object refers to is reachable. */
  lemma ReachableStep(h: seq<Word>, start: int, objs: set<int>, roots: set<int>, a: int, b: int)
    requires Reachable(h, start, objs, roots, a) && Edge(h, start, objs, a, b)
    ensures Reachable(h, start, objs, roots, b)
  {
    var r :| r in roots && ReachFrom(h, start, objs, r, a);
    var p :| IsPath(h, start, objs, p) && p[0] == r && p[|p| - 1] == a;
    PathExtend(h, start, objs, p, b);
    assert (p + [b])[0] == r;
  }

  /** The targets, inside `m`, of the references held by the first `n`
      elements of the object at `y`. */
  ghost predicate ChildrenInUpTo(h: seq<Word>, start: int, y: int, m: set<int>, n: int)
  {
    ObjectAt(h, y) &&
    forall j :: 0 <= j < n && j < h[y + 1] && IsRef(Elem(h, y, j)) ==> Target(start, Elem(h, y, j)) in m
  }

  lemma ChildrenExtend(h: seq<Word>, start: int, y: int, m: set<int>, n: int)
    requires ChildrenInUpTo(h, start, y, m, n) && 0 <= n
    requires n < h[y + 1] && IsRef(Elem(h, y, n)) ==> Target(start, Elem(h, y, n)) in m
    ensures ChildrenInUpTo(h, start, y, m, n + 1)
  {
  }

  ghost predicate ChildrenIn(h: seq<Word>, start: int, y: int, m: set<int>)
  {
    ObjectAt(h, y) && ChildrenInUpTo(h, start, y, m, h[y + 1])
  }

  /** Every object of `m` outside `gray` has all its children in `m`. */
  ghost predicate BlackClosed(h: seq<Word>, start: int, m: set<int>, gray: set<int>)
  {
    forall y :: y in m && y !in gray ==> ChildrenIn(h, start, y, m)
  }

  lemma ChildrenGrow(h: seq<Word>, start: int, y: int, m: set<int>, m': set<int>, n: int)
    requires ChildrenInUpTo(h, start, y, m, n) && m <= m'
    ensures ChildrenInUpTo(h, start, y, m', n)
  {
  }

  lemma BlackClosedGrow(h: seq<Word>, start: int, m: set<int>, m': set<int>, gray: set<int>, gray': set<int>)
    requires BlackClosed(h, start, m, gray)
    requires m <= m' && gray <= gray'
    requires forall y :: y in m' - m && y !in gray' ==> ChildrenIn(h, start, y, m')
    ensures BlackClosed(h, start, m', gray')
  {
    forall y | y in m' && y !in gray'
      ensures ChildrenIn(h, start, y, m')
    {
      if y in m {
        ChildrenGrow(h, start, y, m, m', h[y + 1]);
      }
    }
  }

  /** An object whose children are all marked leaves the gray set. */
  lemma BlackClosedRelease(h: seq<Word>, start: int, m: set<int>, gray: set<int>, x: int)
    requires BlackClosed(h, start, m, gray + {x}) && ChildrenIn(h, start, x, m)
    ensures BlackClosed(h, start, m, gray)
  {
  }

  /** Along a path that starts in a set closed under children, every object
      is in the set. */
  lemma {:induction false} PathStaysIn(h: seq<Word>, start: int, objs: set<int>, m: set<int>, p: seq<int>)
    requires StartOk(start, |h|) && Layout(h, objs)
    requires BlackClosed(h, start, m, {})
    requires IsPath(h, start, objs, p) && p[0] in m
    ensures p[|p| - 1] in m
    decreases |p|
  {
    if |p| > 1 {
      var a, b := p[0], p[1];
      var j :| 0 <= j < h[a + 1] && Elem(h, a, j) == Ref(start, b);
      RefIsRef(start, |h|, b);
      assert ChildrenIn(h, start, a, m);
      assert b in m;
      PathStaysIn(h, start, objs, m, p[1..]);
    }
  }

  /** A set that holds the roots and is closed under children holds every
      reachable object. */
  lemma ClosedSetHoldsReachable(h: seq<Word>, start: int, objs: set<int>, roots: set<int>, m: set<int>, b: int)
    requires StartOk(start, |h|) && Layout(h, objs)
    requires BlackClosed(h, start, m, {}) && roots <= m
    requires Reachable(h, start, objs, roots, b)
    ensures b in m
  {
    var a :| a in roots && ReachFrom(h, start, objs, a, b);
    var p :| IsPath(h, start, objs, p) && p[0] == a && p[|p| - 1] == b;
    PathStaysIn(h, start, objs, m, p);
  }

  // ---------------------------------------------------------------------
  // The mark phase's view of the heap
  // ---------------------------------------------------------------------

  /** The objects whose header is the mark 1. */
  ghost function MarkedIn(h: seq<Word>, objs: set<int>): set<int>
  {
    set y | y in objs && 0 <= y < |h| && h[y] == 1
  }

  /** During marking only headers change, and each is 0 or 1. */
  ghost predicate MarkingState(h: seq<Word>, h0: seq<Word>, objs: set<int>)
  {
    |h| == |h0| &&
    (forall p :: 0 <= p < |h| && p !in objs ==> h[p] == h0[p]) &&
    (forall y :: y in objs && 0 <= y < |h| ==> h[y] == 0 || h[y] == 1)
  }

  ghost predicate NoDup(s: seq<int>)
  {
    forall i, j :: 0 <= i < j < |s| ==> s[i] != s[j]
  }

  ghost function Elems(s: seq<int>): set<int>
  {
    set y | y in s
  }

  lemma NoDupAppend(a: seq<int>, b: seq<int>)
    requires NoDup(a) && NoDup(b)
    requires forall y :: y in b ==> y !in a
    ensures NoDup(a + b)
  {
    forall i, j | 0 <= i < j < |a + b|
      ensures (a + b)[i] != (a + b)[j]
    {
      if j >= |a| && i < |a| {
        assert (a + b)[j] in b;
      }
    }
  }

  // ---------------------------------------------------------------------
  // Sorting the live addresses (`sort_unstable`)
  // ---------------------------------------------------------------------

  ghost predicate Sorted(s: seq<int>)
  {
    forall i, j :: 0 <= i < j < |s| ==> s[i] <= s[j]
  }

  ghost predicate Increasing(s: seq<int>)
  {
    forall i, j :: 0 <= i < j < |s| ==> s[i] < s[j]
  }

  function Insert(x: int, s: seq<int>): (r: seq<int>)
    requires Sorted(s)
    ensures Sorted(r)
    ensures multiset(r) == multiset(s) + multiset{x}
  {
    if |s| == 0 then [x]
    else if x <= s[0] then [x] + s
    else
      var rest := Insert(x, s[1..]);
      InsertBelowHead(x, s, rest);
      [s[0]] + rest
  }

  /** Putting the head back in front of the insertion into the tail. */
  lemma InsertBelowHead(x: int, s: seq<int>, rest: seq<int>)
    requires Sorted(s) && |s| > 0 && s[0] < x
    requires Sorted(rest) && multiset(rest) == multiset(s[1..]) + multiset{x}
    ensures Sorted([s[0]] + rest)
    ensures multiset([s[0]] + rest) == multiset(s) + multiset{x}
  {
    assert s == [s[0]] + s[1..];
    forall i | 0 <= i < |rest|
      ensures s[0] <= rest[i]
    {
      assert rest[i] in multiset(rest);
      if rest[i] != x {
        assert rest[i] in multiset(s[1..]);
        var k :| 0 <= k < |s[1..]| && s[1..][k] == rest[i];
        assert s[k + 1] == rest[i];
      }
    }
  }

  /** The ascending order of the addresses; for distinct addresses, as here,
      it is the only sorted permutation, so it stands for `sort_unstable`. */
  function SortAscending(s: seq<int>): (r: seq<int>)
    ensures Sorted(r)
    ensures multiset(r) == multiset(s)
  {
    if |s| == 0 then []
    else
      assert s == [s[0]] + s[1..];
      Insert(s[0], SortAscending(s[1..]))
  }

  /** Sorting addresses without duplicates yields a strictly increasing
      sequence of the same addresses. */
  lemma SortDistinct(s: seq<int>)
    requires NoDup(s)
    ensures Increasing(SortAscending(s))
    ensures forall y :: y in SortAscending(s) <==> y in s
  {
    var r := SortAscending(s);
    forall y
      ensures y in r <==> y in s
    {
      assert y in r <==> y in multiset(r);
      assert y in s <==> y in multiset(s);
    }
    forall i, j | 0 <= i < j < |r|
      ensures r[i] < r[j]
    {
      if r[i] == r[j] {
        DupCount(r, i, j);
        NoDupCount(s, r[i]);
      }
    }
  }

  lemma DupCount(r: seq<int>, i: int, j: int)
    requires 0 <= i < j < |r| && r[i] == r[j]
    ensures multiset(r)[r[i]] >= 2
  {
    var x := r[i];
    assert r == r[..j] + r[j..];
    assert x in r[..j];
    assert r[j..][0] == x;
    assert multiset(r)[x] == multiset(r[..j])[x] + multiset(r[j..])[x];
  }

  lemma {:induction false} NoDupCount(s: seq<int>, x: int)
    requires NoDup(s)
    ensures multiset(s)[x] <= 1
  {
    if |s| > 0 {
      assert s == [s[0]] + s[1..];
      NoDupCount(s[1..], x);
      if s[0] == x {
        assert x !in s[1..];
      }
    }
  }

  // ---------------------------------------------------------------------
  // Forwarding addresses (`fwd_headers`)
  // ---------------------------------------------------------------------

  /** The number of words the objects of `xs` occupy: the sum of
      `2 + size`. */
  function Packed(h: seq<Word>, xs: seq<int>): int
  {
    if |xs| == 0 then 0 else Packed(h, xs[..|xs| - 1]) + Extent(h, xs[|xs| - 1])
  }

  /** The new word index of the `k`-th live object: the objects before it,
      packed without gaps from the start of the heap. */
  function Dest(h: seq<Word>, xs: seq<int>, k: int): int
    requires 0 <= k <= |xs|
  {
    Packed(h, xs[..k])
  }

  lemma DestNext(h: seq<Word>, xs: seq<int>, k: int)
    requires 0 <= k < |xs|
    ensures Dest(h, xs, k + 1) == Dest(h, xs, k) + Extent(h, xs[k])
  {
    assert xs[..k + 1][..k] == xs[..k];
  }

  lemma {:induction false} DestMonotone(h: seq<Word>, xs: seq<int>, j: int, k: int)
    requires 0 <= j <= k <= |xs|
    requires forall i :: 0 <= i < |xs| ==> 0 <= Extent(h, xs[i])
    ensures Dest(h, xs, j) <= Dest(h, xs, k)
    decreases k - j
  {
    if j < k {
      DestNext(h, xs, j);
      DestMonotone(h, xs, j + 1, k);
    }
  }

  /** The objects the collector keeps: strictly increasing addresses of
      objects laid out in `h`. */
  ghost predicate LiveOrder(h: seq<Word>, objs: set<int>, xs: seq<int>)
  {
    Layout(h, objs) && Increasing(xs) && forall k :: 0 <= k < |xs| ==> xs[k] in objs
  }

  /** Packing moves no object to a higher address, and the packed objects
      fit in the heap. */
  lemma {:induction false} DestBelow(h: seq<Word>, objs: set<int>, xs: seq<int>, k: int)
    requires LiveOrder(h, objs, xs) && 0 <= k <= |xs|
    ensures k < |xs| ==> Dest(h, xs, k) <= xs[k]
    ensures Dest(h, xs, k) <= |h|
    ensures 0 <= Dest(h, xs, k)
  {
    if k > 0 {
      DestBelow(h, objs, xs, k - 1);
      DestNext(h, xs, k - 1);
      assert ObjectAt(h, xs[k - 1]);
      if k < |xs| {
        assert xs[k - 1] < xs[k];
      }
    } else if |xs| > 0 {
      assert ObjectAt(h, xs[0]);
    }
  }

  /** The packing depends on the objects' extents only. */
  lemma {:induction false} PackedSameExtents(h: seq<Word>, g: seq<Word>, xs: seq<int>)
    requires forall k :: 0 <= k < |xs| ==> Extent(g, xs[k]) == Extent(h, xs[k])
    ensures Packed(g, xs) == Packed(h, xs)
  {
    if |xs| > 0 {
      PackedSameExtents(h, g, xs[..|xs| - 1]);
    }
  }

  /** The heap after `fwd_headers` has overwritten the headers of the
      first objects `xs`: each with the reference to its destination. */
  ghost function FwdHeadersSpec(h: seq<Word>, start: int, xs: seq<int>): (r: seq<Word>)
    ensures |r| == |h|
  {
    if |xs| == 0 then h
    else
      var k := |xs| - 1;
      var prev := FwdHeadersSpec(h, start, xs[..k]);
      if 0 <= xs[k] < |h| && 0 <= Ref(start, Dest(h, xs, k)) < TWO64 then prev[xs[k] := Ref(start, Dest(h, xs, k))]
      else prev
  }

  /** A destination depends only on the objects before it. */
  lemma DestOfPrefix(h: seq<Word>, xs: seq<int>, n: int, j: int)
    requires 0 <= j <= n <= |xs|
    ensures Dest(h, xs[..n], j) == Dest(h, xs, j)
  {
    assert xs[..n][..j] == xs[..j];
  }

  /** The headers of the live objects hold their forwarding references. */
  lemma FwdHeadersSpecHeaders(h: seq<Word>, start: int, objs: set<int>, xs: seq<int>)
    requires StartOk(start, |h|) && LiveOrder(h, objs, xs)
    ensures forall k :: 0 <= k < |xs| ==> FwdHeadersSpec(h, start, xs)[xs[k]] as int == Ref(start, Dest(h, xs, k))
  {
    forall j | 0 <= j < |xs|
      ensures FwdHeadersSpec(h, start, xs)[xs[j]] as int == Ref(start, Dest(h, xs, j))
    {
      FwdHeaderAt(h, start, objs, xs, j);
    }
  }

  /** The header of the `j`-th live object, by induction on the live
      objects handled: the `j`-th step writes it and later steps write other
      headers. */
  lemma {:induction false} FwdHeaderAt(h: seq<Word>, start: int, objs: set<int>, xs: seq<int>, j: int)
    requires StartOk(start, |h|) && LiveOrder(h, objs, xs) && 0 <= j < |xs|
    ensures FwdHeadersSpec(h, start, xs)[xs[j]] as int == Ref(start, Dest(h, xs, j))
  {
    var k := |xs| - 1;
    var ys := xs[..k];
    assert ObjectAt(h, xs[k]);
    DestBelow(h, objs, xs, k);
    RefIsRef(start, |h|, Dest(h, xs, k));
    if j < k {
      assert LiveOrder(h, objs, ys);
      FwdHeaderAt(h, start, objs, ys, j);
      DestOfPrefix(h, xs, k, j);
      assert ys[j] == xs[j] && xs[j] != xs[k];
    }
  }

  /** Every word other than a live header is as it was. */
  lemma {:induction false} FwdHeadersSpecFrame(h: seq<Word>, start: int, xs: seq<int>, p: int)
    requires 0 <= p < |h| && p !in xs
    ensures FwdHeadersSpec(h, start, xs)[p] == h[p]
  {
    if |xs| > 0 {
      var k := |xs| - 1;
      assert xs == xs[..k] + [xs[k]];
      FwdHeadersSpecFrame(h, start, xs[..k], p);
    }
  }

  lemma FwdHeadersSpecWords(h: seq<Word>, start: int, objs: set<int>, xs: seq<int>)
    requires StartOk(start, |h|) && LiveOrder(h, objs, xs)
    ensures forall k :: 0 <= k < |xs| ==> FwdHeadersSpec(h, start, xs)[xs[k]] as int == Ref(start, Dest(h, xs, k))
    ensures forall p :: 0 <= p < |h| && p !in xs ==> FwdHeadersSpec(h, start, xs)[p] == h[p]
  {
    FwdHeadersSpecHeaders(h, start, objs, xs);
    forall p | 0 <= p < |h| && p !in xs
      ensures FwdHeadersSpec(h, start, xs)[p] == h[p]
    {
      FwdHeadersSpecFrame(h, start, xs, p);
    }
  }

  /** One step of `fwd_headers`: the `k`-th header is overwritten, and the
      size word it reads is still the original. */
  lemma FwdHeadersStep(h: seq<Word>, start: int, objs: set<int>, xs: seq<int>, k: int)
    requires StartOk(start, |h|) && LiveOrder(h, objs, xs) && 0 <= k < |xs|
    ensures ObjectAt(h, xs[k]) && 0 <= Ref(start, Dest(h, xs, k)) < TWO64
    ensures FwdHeadersSpec(h, start, xs[..k])[xs[k] + 1] == h[xs[k] + 1]
    ensures FwdHeadersSpec(h, start, xs[..k + 1]) ==
      FwdHeadersSpec(h, start, xs[..k])[xs[k] := Ref(start, Dest(h, xs, k))]
    ensures Dest(h, xs, k + 1) == Dest(h, xs, k) + 2 + h[xs[k] + 1] as int
  {
    var from := xs[k];
    assert ObjectAt(h, from);
    assert LiveOrder(h, objs, xs[..k]);
    FwdHeadersSpecWords(h, start, objs, xs[..k]);
    InsideIsNoStart(h, objs, from, from + 1);
    assert from + 1 !in xs[..k];
    DestBelow(h, objs, xs, k);
    RefIsRef(start, |h|, Dest(h, xs, k));
    DestNext(h, xs, k);
    assert xs[..k + 1][..k] == xs[..k];
    assert Dest(h, xs[..k + 1], k) == Dest(h, xs, k);
  }

  /** The position of a live address in the sorted live sequence. */
  function Rank(xs: seq<int>, y: int): (k: int)
    requires y in xs
    ensures 0 <= k < |xs| && xs[k] == y
  {
    if xs[0] == y then 0 else 1 + Rank(xs[1..], y)
  }

  lemma RankOfIndex(xs: seq<int>, k: int)
    requires Increasing(xs) && 0 <= k < |xs|
    ensures Rank(xs, xs[k]) == k
  {
  }

  /** The new word index of the live object at `y`. */
  function NewIndex(h: seq<Word>, xs: seq<int>, y: int): int
    requires y in xs
  {
    Dest(h, xs, Rank(xs, y))
  }

  /** What reference rewriting makes of a word: a reference becomes the
      reference to its object's new place; other words stay as they are. */
  function Relocated(h: seq<Word>, start: int, xs: seq<int>, v: Word): int
    requires IsRef(v) ==> Target(start, v) in xs
  {
    if IsRef(v) then Ref(start, NewIndex(h, xs, Target(start, v))) else v
  }

  /** `fwd_reference`: a reference word is replaced by the header of the
      object it refers to. */
  function FwdWord(h: seq<Word>, start: int, v: Word): Word
    requires IsRef(v) ==> 0 <= Target(start, v) < |h|
  {
    if IsRef(v) then h[Target(start, v)] else v
  }

  /** Position `p` holds an element of the object at `x`. */
  ghost predicate InElems(h: seq<Word>, x: int, p: int)
  {
    ObjectAt(h, x) && x + 2 <= p < x + 2 + h[x + 1]
  }

  /** Position `p` holds an element of one of the objects `xs`. */
  ghost predicate InElemsOf(h: seq<Word>, xs: seq<int>, p: int)
  {
    exists k :: 0 <= k < |xs| && InElems(h, xs[k], p)
  }

  /** An element is neither a header nor a size word. */
  lemma InElemsNotStart(h: seq<Word>, objs: set<int>, x: int, p: int)
    requires Layout(h, objs) && x in objs && InElems(h, x, p)
    ensures p !in objs && p - 1 !in objs
  {
    InsideIsNoStart(h, objs, x, p);
    InsideIsNoStart(h, objs, x, p - 1);
  }

  /** Distinct objects have no element in common. */
  lemma InElemsDisjoint(h: seq<Word>, objs: set<int>, x: int, y: int, p: int)
    requires Layout(h, objs) && x in objs && y in objs && x != y && InElems(h, x, p)
    ensures !InElems(h, y, p)
  {
  }

  /** The live objects whose elements all refer to objects of `objs` inside
      the heap: what `fwd_vec` demands of each object it is given. */
  ghost predicate LiveRefsOk(h: seq<Word>, start: int, objs: set<int>, xs: seq<int>)
  {
    LiveOrder(h, objs, xs) &&
    forall i, j :: 0 <= i < |xs| && ObjectAt(h, xs[i]) && 0 <= j < h[xs[i] + 1] && IsRef(Elem(h, xs[i], j)) ==>
      PointsTo(start, objs, Elem(h, xs[i], j)) && 0 <= Target(start, Elem(h, xs[i], j)) < |h|
  }

  /** The heap `c` after `fwd_vec` has run on the first `k` live objects of
      `h`: their elements are forwarded, and every word that is not one of
      their elements is as in `h`. */
  ghost predicate FwdVecsDone(h: seq<Word>, start: int, objs: set<int>, xs: seq<int>, k: int, c: seq<Word>)
    requires LiveRefsOk(h, start, objs, xs) && 0 <= k <= |xs|
  {
    |c| == |h| &&
    (forall i, j :: 0 <= i < k && ObjectAt(h, xs[i]) && 0 <= j < h[xs[i] + 1] ==>
       Elem(c, xs[i], j) == FwdWord(h, start, Elem(h, xs[i], j))) &&
    (forall p :: 0 <= p < |h| && !InElemsOf(h, xs[..k], p) ==> c[p] == h[p])
  }

  /** Before `fwd_vec` runs on the `k`-th live object, the heap still has
      the original headers, sizes and that object's elements. */
  lemma FwdVecsPre(h: seq<Word>, start: int, objs: set<int>, xs: seq<int>, k: int, c: seq<Word>)
    requires LiveRefsOk(h, start, objs, xs) && 0 <= k < |xs| && FwdVecsDone(h, start, objs, xs, k, c)
    ensures forall y :: y in objs ==> c[y] == h[y] && c[y + 1] == h[y + 1]
    ensures Layout(c, objs)
    ensures ObjectAt(h, xs[k]) && forall j :: 0 <= j < h[xs[k] + 1] ==> Elem(c, xs[k], j) == Elem(h, xs[k], j)
  {
    forall y | y in objs
      ensures c[y] == h[y] && c[y + 1] == h[y + 1]
    {
      assert ObjectAt(h, y);
      forall i | 0 <= i < k
        ensures !InElems(h, xs[i], y) && !InElems(h, xs[i], y + 1)
      {
        if InElems(h, xs[i], y) {
          InElemsNotStart(h, objs, xs[i], y);
        }
        if InElems(h, xs[i], y + 1) {
          InElemsNotStart(h, objs, xs[i], y + 1);
        }
      }
    }
    LayoutFromSizes(h, c, objs);
    assert ObjectAt(h, xs[k]);
    forall j | 0 <= j < h[xs[k] + 1]
      ensures Elem(c, xs[k], j) == Elem(h, xs[k], j)
    {
      var p := xs[k] + 2 + j;
      assert InElems(h, xs[k], p);
      forall i | 0 <= i < k
        ensures !InElems(h, xs[i], p)
      {
        InElemsDisjoint(h, objs, xs[k], xs[i], p);
      }
    }
  }

  /** `fwd_vec` on the `k`-th live object, which forwards its elements
      through the headers of the heap it runs on and changes nothing else,
      extends the forwarded prefix by one object. */
  lemma FwdVecsStep(h: seq<Word>, start: int, objs: set<int>, xs: seq<int>, k: int, c: seq<Word>, c': seq<Word>)
    requires LiveRefsOk(h, start, objs, xs) && 0 <= k < |xs| && FwdVecsDone(h, start, objs, xs, k, c)
    requires ObjectAt(c, xs[k]) && |c'| == |c|
    requires forall j :: 0 <= j < c[xs[k] + 1] && IsRef(Elem(c, xs[k], j)) ==> 0 <= Target(start, Elem(c, xs[k], j)) < |c|
    requires forall j :: 0 <= j < c[xs[k] + 1] ==> Elem(c', xs[k], j) == FwdWord(c, start, Elem(c, xs[k], j))
    requires forall p :: 0 <= p < |c| && !(xs[k] + 2 <= p < xs[k] + 2 + c[xs[k] + 1]) ==> c'[p] == c[p]
    ensures FwdVecsDone(h, start, objs, xs, k + 1, c')
  {
    FwdVecsPre(h, start, objs, xs, k, c);
    var x := xs[k];
    forall i, j | 0 <= i < k + 1 && ObjectAt(h, xs[i]) && 0 <= j < h[xs[i] + 1]
      ensures Elem(c', xs[i], j) == FwdWord(h, start, Elem(h, xs[i], j))
    {
      var p := xs[i] + 2 + j;
      assert InElems(h, xs[i], p);
      if i < k {
        InElemsDisjoint(h, objs, xs[i], x, p);
        assert c'[p] == c[p];
      } else {
        var v := Elem(h, x, j);
        if IsRef(v) {
          assert PointsTo(start, objs, v);
          assert c[Target(start, v)] == h[Target(start, v)];
        }
      }
    }
    forall p | 0 <= p < |h| && !InElemsOf(h, xs[..k + 1], p)
      ensures c'[p] == h[p]
    {
      assert !InElems(h, x, p) by {
        assert xs[..k + 1][k] == x;
      }
    }
  }

  // ---------------------------------------------------------------------
  // Compaction
  // ---------------------------------------------------------------------

  /** The copy loop `for i in i..n { h[to + i] = h[from + i] }`, one word at
      a time in ascending order (it stops at the heap's edge, which the
      collector never reaches). */
  ghost function CopyUp(h: seq<Word>, from: int, to: int, i: int, n: int): (r: seq<Word>)
    ensures |r| == |h|
    decreases n - i
  {
    if i >= n || !(0 <= from + i < |h|) || !(0 <= to + i < |h|) then h
    else CopyUp(h[to + i := h[from + i]], from, to, i + 1, n)
  }

  /** Copying towards lower addresses in ascending order reads every word
      before it is overwritten, so the result is a plain block move. */
  lemma {:induction false} CopyUpAt(h: seq<Word>, from: int, to: int, i: int, n: int, p: int)
    requires 0 <= to <= from && 0 <= i && from + n <= |h| && 0 <= p < |h|
    ensures CopyUp(h, from, to, i, n)[p] == if to + i <= p < to + n then h[p - to + from] else h[p]
    decreases n - i
  {
    if i < n {
      var g := h[to + i := h[from + i]];
      CopyUpAt(g, from, to, i + 1, n, p);
      if to + i + 1 <= p < to + n {
        assert g[p - to + from] == h[p - to + from];
      }
    }
  }

  /** One step of the compaction loop for the object at `from`: the
      destination is read from its header, the header is set to 0, and words
      `first .. 2 + size` are copied. The source starts at `first` = 1. */
  ghost function MoveStep(h: seq<Word>, start: int, from: int, first: int): (r: seq<Word>)
    ensures |r| == |h|
  {
    if 0 <= from && from + 1 < |h| then
      CopyUp(h[from := 0], from, Target(start, h[from]), first, 2 + h[from + 1] as int)
    else h
  }

  /** The word at `p` after one step: inside the copied range it is the
      word it was copied from (the source header reads as 0), and outside it
      only the source header has changed. */
  lemma MoveStepAt(h: seq<Word>, start: int, from: int, to: int, first: int, p: int)
    requires 0 <= to <= from && from + 1 < |h| && from + 2 + h[from + 1] as int <= |h|
    requires h[from] as int == Ref(start, to) && 0 <= first && 0 <= p < |h|
    ensures MoveStep(h, start, from, first)[p] ==
      if to + first <= p < to + 2 + h[from + 1] as int then h[from := 0][p - to + from]
      else h[from := 0][p]
  {
    TargetOfRef(start, to);
    CopyUpAt(h[from := 0], from, to, first, 2 + h[from + 1] as int, p);
  }

  /** The compaction loop over the live objects `xs`, in order. */
  ghost function CompactFold(h: seq<Word>, start: int, xs: seq<int>, first: int): (r: seq<Word>)
    ensures |r| == |h|
  {
    if |xs| == 0 then h
    else MoveStep(CompactFold(h, start, xs[..|xs| - 1], first), start, xs[|xs| - 1], first)
  }

  /** The state compaction starts from: live objects in increasing order,
      each header holding its forwarding reference. */
  ghost predicate ReadyToCompact(h: seq<Word>, start: int, objs: set<int>, xs: seq<int>)
  {
    LiveOrder(h, objs, xs) &&
    forall k :: 0 <= k < |xs| ==> h[xs[k]] as int == Ref(start, Dest(h, xs, k))
  }

  /** The size and elements of the `j`-th live object of `h` lie at its
      destination in `c`. */
  ghost predicate BodyAt(h: seq<Word>, xs: seq<int>, j: int, c: seq<Word>)
    requires 0 <= j < |xs|
  {
    ObjectAt(h, xs[j]) && 0 <= Dest(h, xs, j) && Dest(h, xs, j) + Extent(h, xs[j]) <= |c| &&
    forall i :: 1 <= i < Extent(h, xs[j]) ==> WordOf(c, Dest(h, xs, j), i) == WordOf(h, xs[j], i)
  }

  /** The heap `c` after the first `k` compaction steps: from the `k`-th
      live object on it is untouched, and each of the first `k` objects has
      its size and elements at its destination; with `first` = 0 its
      destination header is 0 as well. */
  ghost predicate MovedUpTo(h: seq<Word>, xs: seq<int>, k: int, first: int, c: seq<Word>)
    requires 0 <= k <= |xs|
  {
    |c| == |h| &&
    (k < |xs| ==> forall p :: 0 <= xs[k] <= p < |h| ==> c[p] == h[p]) &&
    (forall j :: 0 <= j < k ==> BodyAt(h, xs, j, c)) &&
    (first == 0 ==> forall j :: 0 <= j < k ==> 0 <= Dest(h, xs, j) < |h| && c[Dest(h, xs, j)] == 0)
  }

  /** Where the objects before the `k`-th one are moved to lies below its
      own destination. */
  lemma DestsBefore(h: seq<Word>, objs: set<int>, xs: seq<int>, k: int)
    requires LiveOrder(h, objs, xs) && 0 <= k < |xs|
    ensures forall j :: 0 <= j < k ==> 0 <= Dest(h, xs, j) && Dest(h, xs, j) + Extent(h, xs[j]) <= Dest(h, xs, k)
  {
    forall j | 0 <= j < k
      ensures 0 <= Dest(h, xs, j) && Dest(h, xs, j) + Extent(h, xs[j]) <= Dest(h, xs, k)
    {
      DestBelow(h, objs, xs, j);
      DestNext(h, xs, j);
      assert ObjectAt(h, xs[k]);
      assert forall i :: 0 <= i < |xs| ==> ObjectAt(h, xs[i]);
      DestMonotone(h, xs, j + 1, k);
    }
  }

  /** What one compaction step may rely on: the `k`-th object is still in
      place, with its forwarding reference in its header. */
  ghost predicate StepReady(h: seq<Word>, start: int, objs: set<int>, xs: seq<int>, k: int, first: int, c: seq<Word>)
  {
    ReadyToCompact(h, start, objs, xs) && 0 <= k < |xs| && (first == 0 || first == 1) &&
    MovedUpTo(h, xs, k, first, c)
  }

  lemma StepFacts(h: seq<Word>, start: int, objs: set<int>, xs: seq<int>, k: int, first: int, c: seq<Word>)
    requires StepReady(h, start, objs, xs, k, first, c)
    ensures ObjectAt(h, xs[k]) && 0 <= Dest(h, xs, k) <= xs[k]
    ensures c[xs[k]] as int == Ref(start, Dest(h, xs, k)) && c[xs[k] + 1] == h[xs[k] + 1]
    ensures Dest(h, xs, k + 1) == Dest(h, xs, k) + Extent(h, xs[k]) <= |h|
    ensures Extent(h, xs[k]) == 2 + c[xs[k] + 1] as int
    ensures k + 1 < |xs| ==> xs[k] + Extent(h, xs[k]) <= xs[k + 1]
    ensures forall j :: 0 <= j < k ==> 0 <= Dest(h, xs, j) && Dest(h, xs, j) + Extent(h, xs[j]) <= Dest(h, xs, k)
  {
    assert ObjectAt(h, xs[k]);
    DestBelow(h, objs, xs, k);
    DestBelow(h, objs, xs, k + 1);
    DestNext(h, xs, k);
    DestsBefore(h, objs, xs, k);
  }

  /** What the compaction loop needs at step `k`: the `k`-th object can be
      moved, its destination is read from its header, and moving it gives
      the fold over one more object. */
  lemma CompactLoopStep(h: seq<Word>, start: int, objs: set<int>, xs: seq<int>, k: int, first: int)
    requires ReadyToCompact(h, start, objs, xs) && 0 <= k < |xs| && (first == 0 || first == 1)
    ensures var c := CompactFold(h, start, xs[..k], first);
      0 <= xs[k] && xs[k] + 1 < |c| &&
      Target(start, c[xs[k]]) == Dest(h, xs, k) && 0 <= Dest(h, xs, k) <= xs[k] &&
      xs[k] + 2 + c[xs[k] + 1] as int <= |c| &&
      Dest(h, xs, k + 1) == Dest(h, xs, k) + 2 + c[xs[k] + 1] as int &&
      MoveStep(c, start, xs[k], first) == CompactFold(h, start, xs[..k + 1], first)
  {
    var c := CompactFold(h, start, xs[..k], first);
    CompactFoldPrefix(h, start, objs, xs, k, first);
    StepFacts(h, start, objs, xs, k, first, c);
    TargetOfRef(start, Dest(h, xs, k));
    assert xs[..k + 1][..k] == xs[..k];
  }

  /** A step leaves the heap from the next live object on untouched. */
  lemma StepKeepsRest(h: seq<Word>, start: int, objs: set<int>, xs: seq<int>, k: int, first: int, c: seq<Word>)
    requires StepReady(h, start, objs, xs, k, first, c) && k + 1 < |xs|
    ensures forall p :: 0 <= xs[k + 1] <= p < |h| ==> MoveStep(c, start, xs[k], first)[p] == h[p]
  {
    StepFacts(h, start, objs, xs, k, first, c);
    forall p | 0 <= xs[k + 1] <= p < |h|
      ensures MoveStep(c, start, xs[k], first)[p] == h[p]
    {
      MoveStepAt(c, start, xs[k], Dest(h, xs, k), first, p);
    }
  }

  /** A step leaves the heap below the destination of the object it moves
      untouched. */
  lemma StepKeepsBelow(h: seq<Word>, start: int, objs: set<int>, xs: seq<int>, k: int, first: int, c: seq<Word>)
    requires StepReady(h, start, objs, xs, k, first, c)
    ensures 0 <= Dest(h, xs, k) <= |c|
    ensures forall p :: 0 <= p < Dest(h, xs, k) ==> MoveStep(c, start, xs[k], first)[p] == c[p]
  {
    StepFacts(h, start, objs, xs, k, first, c);
    forall p | 0 <= p < Dest(h, xs, k)
      ensures MoveStep(c, start, xs[k], first)[p] == c[p]
    {
      MoveStepAt(c, start, xs[k], Dest(h, xs, k), first, p);
    }
  }

  /** An object moved below `bound` stays moved while the heap below
      `bound` is unchanged. */
  lemma BodyAtKept(h: seq<Word>, xs: seq<int>, j: int, c: seq<Word>, c': seq<Word>, bound: int)
    requires 0 <= j < |xs| && BodyAt(h, xs, j, c) && |c'| == |c| && bound <= |c|
    requires Dest(h, xs, j) + Extent(h, xs[j]) <= bound && forall p :: 0 <= p < bound ==> c'[p] == c[p]
    ensures BodyAt(h, xs, j, c')
  {
    forall i | 1 <= i < Extent(h, xs[j])
      ensures WordOf(c', Dest(h, xs, j), i) == WordOf(h, xs[j], i)
    {
      assert WordOf(c, Dest(h, xs, j), i) == WordOf(h, xs[j], i);
    }
  }

  /** A step moves the size and elements of the `k`-th object. */
  lemma StepMovesOne(h: seq<Word>, start: int, objs: set<int>, xs: seq<int>, k: int, first: int, c: seq<Word>)
    requires StepReady(h, start, objs, xs, k, first, c)
    ensures BodyAt(h, xs, k, MoveStep(c, start, xs[k], first))
  {
    StepFacts(h, start, objs, xs, k, first, c);
    var c' := MoveStep(c, start, xs[k], first);
    forall i | 1 <= i < Extent(h, xs[k])
      ensures WordOf(c', Dest(h, xs, k), i) == WordOf(h, xs[k], i)
    {
      MoveStepAt(c, start, xs[k], Dest(h, xs, k), first, Dest(h, xs, k) + i);
    }
  }

  /** With `first` = 0 a step leaves 0 in the destination header of the
      object it moves. */
  lemma StepZeroesHeader(h: seq<Word>, start: int, objs: set<int>, xs: seq<int>, k: int, c: seq<Word>)
    requires StepReady(h, start, objs, xs, k, 0, c)
    ensures 0 <= Dest(h, xs, k) < |h| && MoveStep(c, start, xs[k], 0)[Dest(h, xs, k)] == 0
  {
    StepFacts(h, start, objs, xs, k, 0, c);
    MoveStepAt(c, start, xs[k], Dest(h, xs, k), 0, Dest(h, xs, k));
  }

  /** One compaction step extends the moved prefix by one object. */
  lemma CompactStep(h: seq<Word>, start: int, objs: set<int>, xs: seq<int>, k: int, first: int, c: seq<Word>)
    requires StepReady(h, start, objs, xs, k, first, c)
    ensures MovedUpTo(h, xs, k + 1, first, MoveStep(c, start, xs[k], first))
  {
    if k + 1 < |xs| {
      StepKeepsRest(h, start, objs, xs, k, first, c);
    }
    StepFacts(h, start, objs, xs, k, first, c);
    StepKeepsBelow(h, start, objs, xs, k, first, c);
    forall j | 0 <= j < k + 1
      ensures BodyAt(h, xs, j, MoveStep(c, start, xs[k], first))
    {
      if j < k {
        BodyAtKept(h, xs, j, c, MoveStep(c, start, xs[k], first), Dest(h, xs, k));
      } else {
        StepMovesOne(h, start, objs, xs, k, first, c);
      }
    }
    if first == 0 {
      StepZeroesHeader(h, start, objs, xs, k, c);
      forall j | 0 <= j < k
        ensures 0 <= Dest(h, xs, j) < |h| && MoveStep(c, start, xs[k], first)[Dest(h, xs, j)] == 0
      {
        assert c[Dest(h, xs, j)] == 0;
      }
    }
  }

  /** After the first `k` compaction steps the moved prefix is `k` long. */
  lemma {:induction false} CompactFoldPrefix(h: seq<Word>, start: int, objs: set<int>, xs: seq<int>, k: int, first: int)
    requires ReadyToCompact(h, start, objs, xs)
    requires 0 <= k <= |xs| && (first == 0 || first == 1)
    ensures MovedUpTo(h, xs, k, first, CompactFold(h, start, xs[..k], first))
  {
    if k > 0 {
      CompactFoldPrefix(h, start, objs, xs, k - 1, first);
      assert xs[..k][..k - 1] == xs[..k - 1];
      CompactStep(h, start, objs, xs, k - 1, first, CompactFold(h, start, xs[..k - 1], first));
    }
  }
}
