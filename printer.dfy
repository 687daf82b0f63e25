/** The printer `snek_str`: a tagged word as text, vectors read from the
    heap and printed with their elements, with the references on the
    current path in `seen` so that a cycle prints as "[...]". */
module Printer {
  import opened Values
  import opened HeapLayout

  /** The words the printer follows into the heap: odd, and neither nil nor
      one of the booleans, which are tested first. */
  predicate IsVecWord(v: Word)
  {
    v % 2 == 1 && v != NIL && v != TRUE && v != FALSE
  }

  /** The reference words of the objects of `objs`. */
  ghost function ObjRefs(start: int, objs: set<int>): set<int>
  {
    set x | x in objs :: Ref(start, x)
  }

  /** A word the printer can follow: a vector word refers to an object. */
  ghost predicate Printable(start: int, objs: set<int>, v: Word)
  {
    IsVecWord(v) ==> PointsTo(start, objs, v)
  }

  /** The heap as the printer reads it: laid out, with every element of
      every object printable. `snek_str` reads through vector words without
      a check, so this is what it demands. */
  ghost predicate PrintClosed(h: seq<Word>, start: int, objs: set<int>)
  {
    Layout(h, objs) &&
    forall x, j :: x in objs && ObjectAt(h, x) && 0 <= j < h[x + 1] ==> Printable(start, objs, Elem(h, x, j))
  }

  lemma RefInObjRefs(start: int, objs: set<int>, v: Word)
    requires IsVecWord(v) && PointsTo(start, objs, v)
    ensures v as int in ObjRefs(start, objs)
  {
    var x := Target(start, v);
    assert Ref(start, x) in ObjRefs(start, objs);
  }

  /** `snek_str(val, seen)` as text. */
  function Render(h: seq<Word>, start: int, objs: set<int>, v: Word, seen: set<int>): (s: string)
    requires PrintClosed(h, start, objs) && Printable(start, objs, v)
    ensures |s| > 0
    ensures IsVecWord(v) ==> s[0] == '[' && s[|s| - 1] == ']'
    decreases ObjRefs(start, objs) - seen, 0, 0
  {
    if v == TRUE then "true"
    else if v == FALSE then "false"
    else if v % 2 == 0 then IntToString(DecodeInt(v))
    else if v == NIL then "nil"
    else if v as int in seen then "[...]"
    else
      RefInObjRefs(start, objs, v);
      "[" + RenderElems(h, start, objs, Target(start, v), 0, seen + {v as int}) + "]"
  }

  /** The elements `i ..` of the object at `x`, each followed by ", "
      except the last. */
  function RenderElems(h: seq<Word>, start: int, objs: set<int>, x: int, i: int, seen: set<int>): (s: string)
    requires PrintClosed(h, start, objs) && x in objs && 0 <= i
    ensures |s| == 0 <==> i >= h[x + 1] as int
    decreases ObjRefs(start, objs) - seen, 1, h[x + 1] as int - i
  {
    assert ObjectAt(h, x);
    if i >= h[x + 1] as int then ""
    else
      Render(h, start, objs, Elem(h, x, i), seen) + (if i < h[x + 1] as int - 1 then ", " else "") +
      RenderElems(h, start, objs, x, i + 1, seen)
  }

  /** `snek_str`: the loop over the elements appends each element's text
      and the separator; `seen` is handed down by reference, grown by the
      vector on entry and shrunk again before returning, so the caller gets
      back the set it passed. */
  method SnekStr(words: array<Word>, start: int, v: Word, seen: set<int>, ghost objs: set<int>)
    returns (s: string, seenOut: set<int>)
    requires PrintClosed(words[..], start, objs) && Printable(start, objs, v)
    ensures s == Render(words[..], start, objs, v, seen)
    ensures seenOut == seen
    decreases ObjRefs(start, objs) - seen
  {
    seenOut := seen;
    if v == TRUE {
      s := "true";
    } else if v == FALSE {
      s := "false";
    } else if v % 2 == 0 {
      s := IntToString(DecodeInt(v));
    } else if v == 1 {
      s := "nil";
    } else {
      if v as int in seenOut {
        s := "[...]";
        return;
      }
      seenOut := seenOut + {v as int};
      RefInObjRefs(start, objs, v);
      ghost var h := words[..];
      var addr := Target(start, v);
      assert ObjectAt(h, addr);
      var size := words[addr + 1];
      var res := "[";
      for i := 0 to size
        invariant seenOut == seen + {v as int}
        invariant res + RenderElems(h, start, objs, addr, i, seenOut) == "[" + RenderElems(h, start, objs, addr, 0, seenOut)
      {
        var elem := words[addr + 2 + i];
        assert elem == Elem(h, addr, i);
        var e;
        e, seenOut := SnekStr(words, start, elem, seenOut, objs);
        res := res + e;
        if i < size - 1 {
          res := res + ", ";
        }
      }
      assert RenderElems(h, start, objs, addr, size as int, seenOut) == "";
      assert Render(h, start, objs, v, seen) == "[" + RenderElems(h, start, objs, addr, 0, seenOut) + "]";
      seenOut := seenOut - {v as int};
      s := res + "]";
    }
  }

  /** `snek_print`: the line written for the program's result, which is
      returned unchanged. */
  method SnekPrint(words: array<Word>, start: int, v: Word, ghost objs: set<int>) returns (line: string, r: Word)
    requires PrintClosed(words[..], start, objs) && Printable(start, objs, v)
    ensures line == Render(words[..], start, objs, v, {}) + "\n"
    ensures r == v
  {
    var s, _ := SnekStr(words, start, v, {}, objs);
    line := s + "\n";
    r := v;
  }

  // ---------------------------------------------------------------------
  // Properties of the printed text
  // ---------------------------------------------------------------------

  /** The text starts with '[' exactly for the words read as vectors. */
  lemma VectorTextIsBracketed(h: seq<Word>, start: int, objs: set<int>, v: Word, seen: set<int>)
    requires PrintClosed(h, start, objs) && Printable(start, objs, v)
    ensures |Render(h, start, objs, v, seen)| > 0
    ensures Render(h, start, objs, v, seen)[0] == '[' <==> IsVecWord(v)
  {
    if v % 2 == 0 && v != TRUE && v != FALSE {
      var s := IntToString(DecodeInt(v));
      if DecodeInt(v) >= 0 {
        assert IsDigit(s[0]);
      }
    }
  }

  /** Distinct i64s have distinct texts. */
  lemma IntTextInjective(m: int, n: int)
    requires IsI64(m) && IsI64(n) && IntToString(m) == IntToString(n)
    ensures m == n
  {
    ParseIntToString(m);
    ParseIntToString(n);
  }

  /** The text of an i64 read back from its encoding is the same text
      exactly when its double fits in an i64. */
  lemma IntTextSurvivesEncoding(n: int)
    requires IsI64(n)
    ensures EncodeInt(n) % 2 == 0
    ensures IntToString(DecodeInt(EncodeInt(n))) == IntToString(n) <==> -TWO62 <= n < TWO62
  {
    EncodeDecodeInt(n);
    if IntToString(DecodeInt(EncodeInt(n))) == IntToString(n) {
      IntTextInjective(DecodeInt(EncodeInt(n)), n);
    }
  }

  /** The round trip from the program's input to its printed result: the
      text of an i64 is read as an integer and printed back as the same
      text exactly when its double fits in an i64. */
  lemma PrintParsedInt(h: seq<Word>, start: int, objs: set<int>, n: int, seen: set<int>)
    requires PrintClosed(h, start, objs) && IsI64(n)
    ensures ParseInput(IntToString(n)) == Some(EncodeInt(n))
    ensures Render(h, start, objs, EncodeInt(n), seen) == IntToString(n) <==> -TWO62 <= n < TWO62
  {
    ParseInputOfInt(n);
    IntTextSurvivesEncoding(n);
  }

  /** "true" and "false" are read as the booleans and printed back. */
  lemma PrintParsedBool(h: seq<Word>, start: int, objs: set<int>, input: string, seen: set<int>)
    requires PrintClosed(h, start, objs) && (input == "true" || input == "false")
    ensures ParseInput(input).Some?
    ensures Render(h, start, objs, ParseInput(input).value, seen) == input
  {
  }

  // ---------------------------------------------------------------------
  // What `seen` decides
  // ---------------------------------------------------------------------

  /** A set of reference words closed under the printer's steps: each is
      the reference of an object, and every vector element of such an
      object is in the set again. The reference words reachable from a
      word are the least such set that holds it. */
  ghost predicate RefClosed(h: seq<Word>, start: int, objs: set<int>, refs: set<int>)
  {
    (forall r :: r in refs ==> r in ObjRefs(start, objs)) &&
    forall x, j :: x in objs && Ref(start, x) in refs && ObjectAt(h, x) && 0 <= j < h[x + 1] && IsVecWord(Elem(h, x, j)) ==>
      Elem(h, x, j) as int in refs
  }

  /** The text of `v` depends on `seen` only through the reference words
      that can be reached from `v`: two sets that agree there give the
      same text. */
  lemma {:induction false} RenderIgnoresUnreachedSeen(h: seq<Word>, start: int, objs: set<int>, v: Word,
                                                      seen: set<int>, seen': set<int>, refs: set<int>)
    requires PrintClosed(h, start, objs) && Printable(start, objs, v)
    requires RefClosed(h, start, objs, refs) && (IsVecWord(v) ==> v as int in refs)
    requires forall r :: r in refs ==> (r in seen <==> r in seen')
    ensures Render(h, start, objs, v, seen) == Render(h, start, objs, v, seen')
    decreases ObjRefs(start, objs) - seen, 0, 0
  {
    if IsVecWord(v) && v as int !in seen {
      var r := v as int;
      RefInObjRefs(start, objs, v);
      var x := Target(start, v);
      assert Ref(start, x) == r;
      RenderElemsIgnoresUnreachedSeen(h, start, objs, x, 0, seen + {r}, seen' + {r}, refs);
    }
  }

  lemma {:induction false} RenderElemsIgnoresUnreachedSeen(h: seq<Word>, start: int, objs: set<int>, x: int, i: int,
                                                           seen: set<int>, seen': set<int>, refs: set<int>)
    requires PrintClosed(h, start, objs) && x in objs && 0 <= i
    requires RefClosed(h, start, objs, refs) && Ref(start, x) in refs
    requires forall r :: r in refs ==> (r in seen <==> r in seen')
    ensures RenderElems(h, start, objs, x, i, seen) == RenderElems(h, start, objs, x, i, seen')
    decreases ObjRefs(start, objs) - seen, 1, h[x + 1] as int - i
  {
    assert ObjectAt(h, x);
    if i < h[x + 1] as int {
      var e := Elem(h, x, i);
      assert Printable(start, objs, e);
      assert IsVecWord(e) ==> e as int in refs;
      var sep := if i < h[x + 1] as int - 1 then ", " else "";
      assert RenderElems(h, start, objs, x, i, seen) ==
        Render(h, start, objs, e, seen) + sep + RenderElems(h, start, objs, x, i + 1, seen);
      assert RenderElems(h, start, objs, x, i, seen') ==
        Render(h, start, objs, e, seen') + sep + RenderElems(h, start, objs, x, i + 1, seen');
      RenderIgnoresUnreachedSeen(h, start, objs, e, seen, seen', refs);
      RenderElemsIgnoresUnreachedSeen(h, start, objs, x, i + 1, seen, seen', refs);
    }
  }

  /** An element of the vector at `x` from which neither that vector nor
      anything already in `seen` can be reached is printed in full, as it
      would be printed on its own: a vector shared by two elements appears
      twice, and only a path back to a vector being printed gives "[...]". */
  lemma ElementPrintsInFull(h: seq<Word>, start: int, objs: set<int>, x: int, j: int, seen: set<int>, refs: set<int>)
    requires PrintClosed(h, start, objs) && x in objs && ObjectAt(h, x) && 0 <= j < h[x + 1]
    requires RefClosed(h, start, objs, refs) && (IsVecWord(Elem(h, x, j)) ==> Elem(h, x, j) as int in refs)
    requires Ref(start, x) !in refs && forall r :: r in refs ==> r !in seen
    ensures Printable(start, objs, Elem(h, x, j))
    ensures Render(h, start, objs, Elem(h, x, j), seen + {Ref(start, x)}) == Render(h, start, objs, Elem(h, x, j), {})
  {
    RenderIgnoresUnreachedSeen(h, start, objs, Elem(h, x, j), seen + {Ref(start, x)}, {}, refs);
  }

  // ---------------------------------------------------------------------
  // Shared and cyclic vectors
  // ---------------------------------------------------------------------

  /** A heap at HEAP_START = 8: the object at word 0 holds two references
      to the empty object at word 4; the object at word 6 holds a reference
      to itself. */
  const EX_START: int := 8
  const EX_OBJS: set<int> := {0, 4, 6}
  const EX_HEAP: seq<Word> := [0, 2, 41, 41, 0, 0, 0, 1, 57]

  lemma ExampleHeap()
    ensures PrintClosed(EX_HEAP, EX_START, EX_OBJS)
    ensures Printable(EX_START, EX_OBJS, 9) && Printable(EX_START, EX_OBJS, 57)
  {
    assert Ref(EX_START, 4) == 41 && Ref(EX_START, 6) == 57 && Ref(EX_START, 0) == 9;
    assert Elem(EX_HEAP, 0, 0) == 41 && Elem(EX_HEAP, 0, 1) == 41 && Elem(EX_HEAP, 6, 0) == 57;
  }

  /** An object shared by two elements is printed in full both times,
      because it has left `seen` again before the second one. */
  lemma SharedPrintsTwice()
    ensures PrintClosed(EX_HEAP, EX_START, EX_OBJS) && Printable(EX_START, EX_OBJS, 9)
    ensures Render(EX_HEAP, EX_START, EX_OBJS, 9, {}) == "[[], []]"
  {
    ExampleHeap();
    var h := EX_HEAP;
    assert Render(h, EX_START, EX_OBJS, 41, {9}) == "[]" by {
      assert RenderElems(h, EX_START, EX_OBJS, 4, 0, {9, 41}) == "";
    }
    assert RenderElems(h, EX_START, EX_OBJS, 0, 2, {9}) == "";
    assert RenderElems(h, EX_START, EX_OBJS, 0, 1, {9}) == "[]";
    assert RenderElems(h, EX_START, EX_OBJS, 0, 0, {9}) == "[], []";
    assert Target(EX_START, 9) == 0 && {} + {9} == {9};
  }

  /** An object that holds itself is printed once, with "[...]" where it
      refers back to itself. */
  lemma CyclePrintsEllipsis()
    ensures PrintClosed(EX_HEAP, EX_START, EX_OBJS) && Printable(EX_START, EX_OBJS, 57)
    ensures Render(EX_HEAP, EX_START, EX_OBJS, 57, {}) == "[[...]]"
  {
    ExampleHeap();
    var h := EX_HEAP;
    assert Render(h, EX_START, EX_OBJS, 57, {57}) == "[...]";
    assert RenderElems(h, EX_START, EX_OBJS, 6, 1, {57}) == "";
    assert RenderElems(h, EX_START, EX_OBJS, 6, 0, {57}) == "[...]";
  }
}
