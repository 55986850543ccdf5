/** Output rectangles as sets of integer pixels: intersection, subtraction with
    a bounded piece list, and the cover relation between a rectangle list and a
    pixel.  All rectangles are half-open, in physical output pixels. */
module Geometry {
  import opened Options

  datatype Point = Point(x: int, y: int)

  datatype Rect = Rect(x0: int, y0: int, x1: int, y1: int)

  predicate Contains(r: Rect, p: Point) {
    r.x0 <= p.x < r.x1 && r.y0 <= p.y < r.y1
  }

  predicate Proper(r: Rect) {
    r.x0 < r.x1 && r.y0 < r.y1
  }

  predicate Within(r: Rect, outer: Rect) {
    outer.x0 <= r.x0 && r.x1 <= outer.x1 && outer.y0 <= r.y0 && r.y1 <= outer.y1
  }

  predicate TouchOrOverlap(a: Rect, b: Rect) {
    a.x1 >= b.x0 && a.x0 <= b.x1 && a.y1 >= b.y0 && a.y0 <= b.y1
  }

  /** Two rectangles touch when, with their borders, they have a point in common. */
  lemma TouchExactly(a: Rect, b: Rect)
    requires a.x0 <= a.x1 && a.y0 <= a.y1 && b.x0 <= b.x1 && b.y0 <= b.y1
    ensures TouchOrOverlap(a, b) <==> exists p: Point :: OnOrIn(a, p) && OnOrIn(b, p)
  {
    if TouchOrOverlap(a, b) {
      var p := Point(Max(a.x0, b.x0), Max(a.y0, b.y0));
      assert OnOrIn(a, p) && OnOrIn(b, p);
    }
  }

  predicate OnOrIn(r: Rect, p: Point) {
    r.x0 <= p.x <= r.x1 && r.y0 <= p.y <= r.y1
  }

  predicate Intersects(a: Rect, b: Rect) {
    a.x1 > b.x0 && a.x0 < b.x1 && a.y1 > b.y0 && a.y0 < b.y1
  }

  function Min(a: int, b: int): int { if a < b then a else b }

  function Max(a: int, b: int): int { if a > b then a else b }

  /** The common pixels of two rectangles, as one rectangle when there are any. */
  function Intersection(a: Rect, b: Rect): (r: Option<Rect>)
    ensures forall p :: Contains(a, p) && Contains(b, p) <==> r.Some? && Contains(r.value, p)
    ensures r.Some? ==> Proper(r.value) && Within(r.value, a) && Within(r.value, b)
  {
    if !Intersects(a, b) then None
    else
      var r := Rect(Max(a.x0, b.x0), Max(a.y0, b.y0), Min(a.x1, b.x1), Min(a.y1, b.y1));
      if Proper(r) then Some(r) else None
  }

  /** The smallest rectangle around two. */
  function Union(a: Rect, b: Rect): (r: Rect)
    ensures Within(a, r) && Within(b, r)
    ensures forall outer :: Within(a, outer) && Within(b, outer) ==> Within(r, outer)
  {
    Rect(Min(a.x0, b.x0), Min(a.y0, b.y0), Max(a.x1, b.x1), Max(a.y1, b.y1))
  }

  /** Some rectangle of the list holds the pixel. */
  ghost predicate Covered(rs: seq<Rect>, p: Point) {
    exists k :: 0 <= k < |rs| && Contains(rs[k], p)
  }

  ghost predicate AllProper(rs: seq<Rect>) {
    forall k :: 0 <= k < |rs| ==> Proper(rs[k])
  }

  ghost predicate AllWithin(rs: seq<Rect>, outer: Rect) {
    forall k :: 0 <= k < |rs| ==> Within(rs[k], outer)
  }

  /** No pixel lies in two rectangles of the list. */
  ghost predicate Disjoint(rs: seq<Rect>) {
    forall i, j, p :: 0 <= i < j < |rs| && Contains(rs[i], p) ==> !Contains(rs[j], p)
  }

  function IfProper(r: Rect): (rs: seq<Rect>)
    ensures AllProper(rs) && |rs| <= 1
    ensures rs == if Proper(r) then [r] else []
  {
    if Proper(r) then [r] else []
  }

  lemma CoveredConcat(a: seq<Rect>, b: seq<Rect>, p: Point)
    ensures Covered(a + b, p) <==> Covered(a, p) || Covered(b, p)
  {
    if Covered(a, p) {
      var k :| 0 <= k < |a| && Contains(a[k], p);
      assert Contains((a + b)[k], p);
    }
    if Covered(b, p) {
      var k :| 0 <= k < |b| && Contains(b[k], p);
      assert Contains((a + b)[|a| + k], p);
    }
    if Covered(a + b, p) {
      var k :| 0 <= k < |a + b| && Contains((a + b)[k], p);
      assert if k < |a| then Contains(a[k], p) else Contains(b[k - |a|], p);
    }
  }

  lemma DisjointConcat(a: seq<Rect>, b: seq<Rect>)
    requires Disjoint(a) && Disjoint(b)
    requires forall p :: Covered(a, p) ==> !Covered(b, p)
    ensures Disjoint(a + b)
  {
    forall i, j, p | 0 <= i < j < |a + b| && Contains((a + b)[i], p)
      ensures !Contains((a + b)[j], p)
    {
      if j < |a| {
        assert Contains(a[i], p);
      } else if i < |a| {
        assert Covered(a, p);
        assert (a + b)[j] == b[j - |a|];
      } else {
        assert Contains(b[i - |a|], p);
        assert (a + b)[j] == b[j - |a|];
      }
    }
  }

  /** Up to four pieces of `src` left after cutting `cut` out of it; `None` when
      they would not fit in `cap` slots. */
  function SubtractOne(src: Rect, cut: Rect, cap: nat): (r: Option<seq<Rect>>)
  {
    var pieces := Pieces(src, cut);
    if |pieces| > cap then None else Some(pieces)
  }

  function Pieces(src: Rect, cut: Rect): (rs: seq<Rect>)
  {
    match Intersection(src, cut)
    case None => [src]
    case Some(ix) =>
      IfProper(Rect(src.x0, src.y0, src.x1, ix.y0)) +
      IfProper(Rect(src.x0, ix.y1, src.x1, src.y1)) +
      IfProper(Rect(src.x0, ix.y0, ix.x0, ix.y1)) +
      IfProper(Rect(ix.x1, ix.y0, src.x1, ix.y1))
  }

  lemma IfProperCovers(r: Rect, p: Point)
    ensures Covered(IfProper(r), p) <==> Contains(r, p)
  {
    if Contains(r, p) {
      assert Contains(IfProper(r)[0], p);
    }
  }

  /** The pieces are exactly the pixels of `src` outside `cut`, each once. */
  lemma PiecesExact(src: Rect, cut: Rect)
    requires Proper(src)
    ensures |Pieces(src, cut)| <= 4
    ensures AllProper(Pieces(src, cut)) && AllWithin(Pieces(src, cut), src)
    ensures Disjoint(Pieces(src, cut))
    ensures forall p :: Covered(Pieces(src, cut), p) <==> Contains(src, p) && !Contains(cut, p)
  {
    match Intersection(src, cut)
    case None =>
      assert forall p :: Covered([src], p) <==> Contains([src][0], p);
    case Some(ix) =>
      var above, below := Rect(src.x0, src.y0, src.x1, ix.y0), Rect(src.x0, ix.y1, src.x1, src.y1);
      var left, right := Rect(src.x0, ix.y0, ix.x0, ix.y1), Rect(ix.x1, ix.y0, src.x1, ix.y1);
      var a, b, c, d := IfProper(above), IfProper(below), IfProper(left), IfProper(right);
      forall p
        ensures Covered(a + b, p) <==> Contains(above, p) || Contains(below, p)
        ensures Covered(a + b + c, p) <==> Contains(above, p) || Contains(below, p) || Contains(left, p)
        ensures Covered(a + b + c + d, p) <==> Contains(src, p) && !Contains(cut, p)
        ensures Covered(c, p) <==> Contains(left, p)
        ensures Covered(d, p) <==> Contains(right, p)
        ensures Covered(a, p) <==> Contains(above, p)
        ensures Covered(b, p) <==> Contains(below, p)
      {
        IfProperCovers(above, p);
        IfProperCovers(below, p);
        IfProperCovers(left, p);
        IfProperCovers(right, p);
        CoveredConcat(a, b, p);
        CoveredConcat(a + b, c, p);
        CoveredConcat(a + b + c, d, p);
        assert Contains(cut, p) && Contains(src, p) <==> Contains(ix, p);
      }
      DisjointConcat(a, b);
      DisjointConcat(a + b, c);
      DisjointConcat(a + b + c, d);
  }

  lemma FewPieces(src: Rect, cut: Rect)
    ensures |Pieces(src, cut)| <= 4
  {
  }

  /** Every rectangle of a list with `cut` removed. */
  function ListPieces(rects: seq<Rect>, cut: Rect): seq<Rect> {
    if rects == [] then []
    else ListPieces(rects[..|rects| - 1], cut) + Pieces(rects[|rects| - 1], cut)
  }

  lemma ListPiecesStep(rects: seq<Rect>, cut: Rect, i: nat)
    requires i < |rects|
    ensures ListPieces(rects[..i + 1], cut) == ListPieces(rects[..i], cut) + Pieces(rects[i], cut)
  {
    assert rects[..i + 1][..i] == rects[..i];
  }

  lemma {:induction false} ListPiecesMonotone(rects: seq<Rect>, cut: Rect, i: nat)
    requires i <= |rects|
    ensures |ListPieces(rects[..i], cut)| <= |ListPieces(rects, cut)|
    decreases |rects| - i
  {
    if i == |rects| {
      assert rects[..i] == rects;
    } else {
      ListPiecesStep(rects, cut, i);
      ListPiecesMonotone(rects, cut, i + 1);
    }
  }

  /** `rs` is exactly the pixels of `rects` outside `cut`, each once. */
  ghost predicate CutOut(rs: seq<Rect>, rects: seq<Rect>, cut: Rect, outer: Rect) {
    && AllProper(rs) && AllWithin(rs, outer) && Disjoint(rs)
    && forall p :: Covered(rs, p) <==> Covered(rects, p) && !Contains(cut, p)
  }

  lemma CutOutMore(rs: seq<Rect>, front: seq<Rect>, pieces: seq<Rect>, last: Rect, cut: Rect, outer: Rect)
    requires CutOut(rs, front, cut, outer)
    requires AllProper(pieces) && AllWithin(pieces, last) && Within(last, outer) && Disjoint(pieces)
    requires forall p :: Covered(pieces, p) <==> Contains(last, p) && !Contains(cut, p)
    requires forall p :: Covered(front, p) ==> !Contains(last, p)
    ensures CutOut(rs + pieces, front + [last], cut, outer)
  {
    forall p
      ensures Covered(rs + pieces, p) <==> Covered(front + [last], p) && !Contains(cut, p)
    {
      CoveredConcat(rs, pieces, p);
      CoveredConcat(front, [last], p);
      assert Covered([last], p) <==> Contains([last][0], p);
    }
    DisjointConcat(rs, pieces);
  }

  /** Cutting a disjoint list keeps exactly its pixels outside `cut`, each once. */
  lemma {:induction false} ListPiecesExact(rects: seq<Rect>, cut: Rect, outer: Rect)
    requires AllProper(rects) && Disjoint(rects) && AllWithin(rects, outer)
    ensures CutOut(ListPieces(rects, cut), rects, cut, outer)
  {
    if rects != [] {
      var n := |rects| - 1;
      var front, last := rects[..n], rects[n];
      ListPiecesExact(front, cut, outer);
      PiecesExact(last, cut);
      forall p | Covered(front, p)
        ensures !Contains(last, p)
      {
        var k :| 0 <= k < |front| && Contains(front[k], p);
        assert Contains(rects[k], p);
      }
      CutOutMore(ListPieces(front, cut), front, Pieces(last, cut), last, cut, outer);
      assert front + [last] == rects;
    }
  }

  /** One rectangle more, unless the pieces no longer fit. */
  method SubtractNext(rects: seq<Rect>, i: nat, cap: nat, cut: Rect, tmp: seq<Rect>) returns (more: Option<seq<Rect>>)
    requires i < |rects| && tmp == ListPieces(rects[..i], cut)
    ensures more.None? ==> |ListPieces(rects, cut)| > cap
    ensures more.Some? ==> more.value == ListPieces(rects[..i + 1], cut) && |more.value| <= cap
  {
    FewPieces(rects[i], cut);
    ListPiecesStep(rects, cut, i);
    var pieces := SubtractOne(rects[i], cut, 4);
    if pieces.None? || |tmp| + |pieces.value| > cap {
      ListPiecesMonotone(rects, cut, i + 1);
      return None;
    }
    return Some(tmp + pieces.value);
  }

  /** `rect_list_subtract_one`: the loop that rebuilds a bounded piece list.  It
      gives up exactly when the full piece list is longer than `cap`. */
  method ListSubtractOne(rects: seq<Rect>, cap: nat, cut: Rect) returns (r: Option<seq<Rect>>)
    requires AllProper(rects)
    ensures r.None? <==> |ListPieces(rects, cut)| > cap
    ensures r.Some? ==> r.value == ListPieces(rects, cut)
  {
    var tmp: seq<Rect> := [];
    for i := 0 to |rects|
      invariant tmp == ListPieces(rects[..i], cut) && |tmp| <= cap
    {
      var more := SubtractNext(rects, i, cap, cut, tmp);
      if more.None? {
        return None;
      }
      tmp := more.value;
    }
    assert rects[..|rects|] == rects;
    return Some(tmp);
  }
}
