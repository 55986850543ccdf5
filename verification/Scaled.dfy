/** Damage of a surface drawn at an integer buffer scale on an output of another
    integer scale: dirty texels are rounded outward to logical pixels, without a
    margin for the bilinear filter.  When that is enough. */
module Scaled {
  import opened Geometry
  import opened Texture

  // ---- one axis ------------------------------------------------------------------------------------

  /** Outward rounding of `[from, to)` holds exactly the logical pixels of its texels. */
  lemma ScaledExactly(from: nat, to: nat, scale: nat, logical: int)
    requires from < to && scale > 0
    ensures from / scale <= logical < CeilDiv(to, scale) <==>
            exists b: int :: from <= b < to && b / scale == logical
  {
    if from / scale <= logical < CeilDiv(to, scale) {
      var b := if logical * scale < from then from else logical * scale;
      ScaledWitness(from, to, scale, logical, b);
    }
    if b: int :| from <= b < to && b / scale == logical {
      DivMonotone(from, b, scale);
      DivMonotone(b + scale, to + scale - 1, scale);
      FloorIs(b, scale, logical);
      assert scale * (logical + 1) == scale * logical + scale;
      assert scale * (logical + 1 + 1) == scale * (logical + 1) + scale;
      FloorIs(b + scale, scale, logical + 1);
    }
  }

  lemma ScaledWitness(from: nat, to: nat, scale: nat, logical: int, b: int)
    requires from < to && scale > 0 && from / scale <= logical < CeilDiv(to, scale)
    requires b == if logical * scale < from then from else logical * scale
    ensures from <= b < to && b / scale == logical
  {
    FloorDiv(to + scale - 1, scale);
    FloorDiv(from, scale);
    var c := CeilDiv(to, scale);
    Ordered(logical + 1, c, scale);
    Ordered(from / scale, logical, scale);
    assert scale * (logical + 1) == scale * logical + scale;
    if logical * scale < from {
      Ordered(from / scale + 1, logical + 1, scale);
    }
    FloorIs(b, scale, logical);
  }

  /** Every pixel mixes only texels of its own logical pixel. */
  ghost predicate AxisSafe(size: nat, scale: nat, outScale: nat)
    requires size > 0 && scale > 0 && outScale > 0
  {
    var width := CeilDiv(size, scale) * outScale;
    forall o, x :: 0 <= o < width && Mixes(o, size, width, x) ==> o / outScale == x / scale
  }

  /** What a caller can check: a single logical pixel, or a buffer with enough
      texels for its output pixels and for the part its last logical pixel lacks. */
  predicate AxisFits(size: nat, scale: nat, outScale: nat)
    requires size > 0 && scale > 0 && outScale > 0
  {
    var n := CeilDiv(size, scale);
    n == 1 || size >= n * outScale + 2 * outScale * (n - 1) * (n * scale - size)
  }

  lemma CeilFacts(size: nat, scale: nat)
    requires size > 0 && scale > 0
    ensures CeilDiv(size, scale) > 0
    ensures 0 <= CeilDiv(size, scale) * scale - size < scale
  {
    FloorDiv(size + scale - 1, scale);
    Cancel(0, CeilDiv(size, scale) + 1, scale);
  }

  lemma Regroup(n: int, outScale: int, l: int, scale: int)
    ensures (2 * (n * outScale)) * (l * scale) == (2 * outScale * l) * (n * scale)
  {
  }

  lemma Distribute(a: int, x: int, y: int)
    ensures a * (x + y) == a * x + a * y
  {
  }

  /** The sample position of the first pixel of logical pixel `l`, scaled up. */
  lemma EdgePosition(size: int, outScale: int, l: int)
    ensures (2 * (l * outScale) + 1) * size == (2 * outScale * l) * size + size
  {
    Distribute(size, 2 * (l * outScale), 1);
    assert 2 * (l * outScale) == 2 * outScale * l;
  }

  /** The first pixel of logical pixel `l` starts no texel early. */
  lemma LowEdge(n: nat, size: nat, scale: nat, outScale: nat, l: nat, o: int)
    requires size > 0 && scale > 0 && outScale > 0 && l < n && l * outScale <= o
    requires size - n * outScale >= 2 * outScale * (n - 1) * (n * scale - size) && n * scale >= size
    ensures (2 * o + 1) * size - n * outScale >= (2 * (n * outScale)) * (l * scale)
  {
    var r, a := n * scale - size, 2 * outScale * l;
    Ordered(2 * (l * outScale) + 1, 2 * o + 1, size);
    EdgePosition(size, outScale, l);
    Regroup(n, outScale, l, scale);
    Distribute(a, size, r);
    Ordered(l, n - 1, 2 * outScale);
    Ordered(a, 2 * outScale * (n - 1), r);
  }

  /** Its last pixel ends no texel late. */
  lemma HighEdge(n: nat, size: nat, scale: nat, outScale: nat, l: nat, o: int)
    requires size > 0 && scale > 0 && outScale > 0 && l < n && o < (l + 1) * outScale
    requires size >= n * outScale && n * scale >= size
    ensures (2 * o + 1) * size - n * outScale <= (2 * (n * outScale)) * ((l + 1) * scale - 1)
  {
    var r, a := n * scale - size, 2 * outScale * (l + 1);
    Ordered(2 * o + 1, 2 * ((l + 1) * outScale) - 1, size);
    Distribute(size, 2 * ((l + 1) * outScale), -1);
    assert 2 * ((l + 1) * outScale) == a;
    Regroup(n, outScale, l + 1, scale);
    Distribute(a, size, r);
    Distribute(2 * (n * outScale), (l + 1) * scale, -1);
    NonNegative(2 * outScale, l + 1);
    NonNegative(a, r);
  }

  lemma Bracketed(v: int, d: nat, low: int, high: int)
    requires d > 0 && d * low <= v <= d * high
    ensures low <= v / d <= high && (v % d != 0 ==> v / d + 1 <= high)
  {
    FloorDiv(v, d);
    Cancel(low, v / d + 1, d);
    assert d * (high + 1) == d * high + d;
    Cancel(v / d, high + 1, d);
    if v % d != 0 {
      assert v == d * (v / d) + v % d;
      Cancel(v / d, high, d);
    }
  }

  lemma MixesInside(o: int, size: nat, width: nat, x: int)
    requires size > 0 && width > 0 && Mixes(o, size, width, x)
    ensures 0 <= x < size
  {
  }

  /** A sample between two texels mixes only texels between them. */
  lemma Bracket(o: int, size: nat, width: nat, low: int, high: int, x: int)
    requires size > 0 && width > 0 && 0 <= o < width && Mixes(o, size, width, x)
    requires 0 <= low && (2 * width) * low <= (2 * o + 1) * size - width <= (2 * width) * high
    ensures low <= x <= high
  {
    Bracketed((2 * o + 1) * size - width, 2 * width, low, high);
    TexelRange(o, size, width);
  }

  lemma OneLogicalPixel(size: nat, scale: nat, outScale: nat, o: int, x: int)
    requires size > 0 && scale > 0 && outScale > 0 && size <= scale
    requires 0 <= o < outScale && 0 <= x < size
    ensures o / outScale == x / scale
  {
    FloorIs(x, scale, 0);
    FloorIs(o, outScale, 0);
  }

  /** A pixel of logical pixel `l` mixes only texels of it. */
  lemma InLogicalPixel(n: nat, size: nat, scale: nat, outScale: nat, l: nat, o: int, x: int)
    requires size > 0 && scale > 0 && outScale > 0 && l < n && l * outScale <= o < (l + 1) * outScale
    requires 0 <= o < n * outScale && Mixes(o, size, n * outScale, x)
    requires 0 <= 2 * outScale * (n - 1)
    requires size - n * outScale >= 2 * outScale * (n - 1) * (n * scale - size) && n * scale >= size
    ensures x / scale == l
  {
    NonNegative(2 * outScale * (n - 1), n * scale - size);
    LowEdge(n, size, scale, outScale, l, o);
    HighEdge(n, size, scale, outScale, l, o);
    Bracket(o, size, n * outScale, l * scale, (l + 1) * scale - 1, x);
    BlockOf(x, scale, l);
  }

  lemma NonNegative(x: int, y: int)
    requires x >= 0 && y >= 0
    ensures x * y >= 0
  {
  }

  lemma BlockOf(x: int, scale: nat, l: int)
    requires scale > 0 && l * scale <= x <= (l + 1) * scale - 1
    ensures x / scale == l
  {
    FloorIs(x, scale, l);
  }

  lemma LogicalOf(n: nat, outScale: nat, o: int) returns (l: nat)
    requires outScale > 0 && 0 <= o < n * outScale
    ensures l < n && l == o / outScale && l * outScale <= o < (l + 1) * outScale
  {
    FloorDiv(o, outScale);
    Cancel(o / outScale, n, outScale);
    Cancel(-1, o / outScale, outScale);
    l := o / outScale;
  }

  lemma LastLogical(n: nat, outScale: nat)
    requires n > 0 && outScale > 0
    ensures 0 <= (n - 1) * outScale < n * outScale && (n - 1) * outScale / outScale == n - 1
  {
    var o := (n - 1) * outScale;
    NonNegative(n - 1, outScale);
    assert n * outScale == o + outScale;
    assert o == outScale * (n - 1) && outScale * n == o + outScale;
    FloorIs(o, outScale, n - 1);
  }

  lemma AxisIsSafe(size: nat, scale: nat, outScale: nat, o: int, x: int)
    requires size > 0 && scale > 0 && outScale > 0 && AxisFits(size, scale, outScale)
    requires var width := CeilDiv(size, scale) * outScale;
             0 <= o < width && width > 0 && Mixes(o, size, width, x)
    ensures o / outScale == x / scale
  {
    var n := CeilDiv(size, scale);
    CeilFacts(size, scale);
    MixesInside(o, size, n * outScale, x);
    if n == 1 {
      OneLogicalPixel(size, scale, outScale, o, x);
    } else {
      var l := LogicalOf(n, outScale, o);
      NonNegative(2 * outScale, n - 1);
      InLogicalPixel(n, size, scale, outScale, l, o, x);
    }
  }

  /** Where the sizes do not fit, the first pixel of the last logical pixel starts early. */
  lemma StartsEarly(n: nat, size: nat, scale: nat, outScale: nat, o: int)
    requires o == (n - 1) * outScale
    requires size - n * outScale < 2 * outScale * (n - 1) * (n * scale - size)
    ensures (2 * o + 1) * size - n * outScale < (2 * (n * outScale)) * ((n - 1) * scale)
  {
    EdgePosition(size, outScale, n - 1);
    Regroup(n, outScale, n - 1, scale);
    Distribute(2 * outScale * (n - 1), size, n * scale - size);
  }

  /** Otherwise the first output pixel of the last logical pixel mixes in a texel
      of the logical pixel before it. */
  lemma AxisWitness(size: nat, scale: nat, outScale: nat) returns (o: int, x: int)
    requires size > 0 && scale > 0 && outScale > 0 && !AxisFits(size, scale, outScale)
    ensures var width := CeilDiv(size, scale) * outScale;
            && width > 0 && 0 <= o < width && Mixes(o, size, width, x) && 0 <= x < size
            && o / outScale != x / scale
  {
    var n := CeilDiv(size, scale);
    CeilFacts(size, scale);
    LastLogical(n, outScale);
    o := (n - 1) * outScale;
    x := First(o, size, n * outScale);
    StartsEarly(n, size, scale, outScale, o);
    BelowBlock(o, size, n * outScale, n - 1, scale);
  }

  lemma BelowBlock(o: int, size: nat, width: nat, l: nat, scale: nat)
    requires size > 0 && width > 0 && scale > 0 && l > 0
    requires (2 * o + 1) * size - width < (2 * width) * (l * scale)
    ensures First(o, size, width) / scale < l
  {
    var x := First(o, size, width);
    FloorDiv((2 * o + 1) * size - width, 2 * width);
    Cancel(Texel(o, size, width), l * scale, 2 * width);
    Ordered(1, l, scale);
    FloorDiv(x, scale);
    Cancel(x / scale, l, scale);
  }

  /** Outward rounding covers what the filter mixes in, along an axis, exactly when
      the sizes fit. */
  lemma AxisExactly(size: nat, scale: nat, outScale: nat)
    requires size > 0 && scale > 0 && outScale > 0
    ensures CeilDiv(size, scale) * outScale > 0
    ensures AxisSafe(size, scale, outScale) <==> AxisFits(size, scale, outScale)
  {
    CeilFacts(size, scale);
    var width := CeilDiv(size, scale) * outScale;
    if AxisFits(size, scale, outScale) {
      forall o, x | 0 <= o < width && Mixes(o, size, width, x)
        ensures o / outScale == x / scale
      {
        AxisIsSafe(size, scale, outScale, o, x);
      }
    } else {
      var o, x := AxisWitness(size, scale, outScale);
    }
  }

  /** With a buffer size that is a multiple of its scale, the sizes fit exactly when
      the buffer is at least as fine as the output, or one logical pixel wide. */
  lemma FitsWhole(n: nat, scale: nat, outScale: nat)
    requires n > 0 && scale > 0 && outScale > 0
    ensures n * scale > 0
    ensures AxisFits(n * scale, scale, outScale) <==> n == 1 || scale >= outScale
  {
    var size := n * scale;
    Ordered(1, n, scale);
    FloorIs(size + scale - 1, scale, n);
    assert scale * (n + 1) == scale * n + scale;
    assert 2 * outScale * (n - 1) * (n * scale - size) == 0;
    if scale >= outScale {
      Ordered(outScale, scale, n);
    } else {
      Ordered(scale + 1, outScale, n);
      assert n * (scale + 1) == n * scale + n;
    }
  }

  // ---- both axes -------------------------------------------------------------------------------------

  /** The output pixels, from the surface's corner, that a dirty rectangle damages. */
  function ScaledRect(c: Rect, scale: nat, outScale: nat): Rect
    requires scale > 0 && 0 <= c.x0 && 0 <= c.y0 && 0 <= c.x1 && 0 <= c.y1
  {
    Rect(c.x0 / scale * outScale, c.y0 / scale * outScale, CeilDiv(c.x1, scale) * outScale, CeilDiv(c.y1, scale) * outScale)
  }

  /** Pixel `p`, from the surface's corner, mixes in a texel of `c`. */
  predicate MixesIn(p: Point, c: Rect, w: nat, h: nat, width: nat, height: nat)
    requires w > 0 && h > 0 && width > 0 && height > 0
  {
    Reads(p.x, w, width, c.x0, c.x1) && Reads(p.y, h, height, c.y0, c.y1)
  }

  lemma WidthPositive(size: nat, scale: nat, outScale: nat)
    requires size > 0 && scale > 0 && outScale > 0
    ensures CeilDiv(size, scale) * outScale > 0
  {
    CeilFacts(size, scale);
    Ordered(1, CeilDiv(size, scale), outScale);
  }

  /** An output pixel mixes only texels of its own logical pixel. */
  predicate OwnBlock(o: int, size: nat, width: nat, scale: Scale, outScale: Scale)
    requires size > 0 && width > 0
  {
    First(o, size, width) / scale == o / outScale && Second(o, size, width) / scale == o / outScale
  }

  lemma BlockCovered(size: nat, width: nat, scale: Scale, outScale: Scale, from: nat, to: nat, o: int)
    requires size > 0 && width > 0 && OwnBlock(o, size, width, scale, outScale) && from < to
    requires Reads(o, size, width, from, to)
    ensures from / scale * outScale <= o < CeilDiv(to, scale) * outScale
  {
    ScaledExactly(from, to, scale, o / outScale);
    RangeOf(o, outScale, from / scale, CeilDiv(to, scale));
  }

  lemma AxisCovered(size: nat, scale: nat, outScale: nat, from: nat, to: nat, o: int)
    requires size > 0 && scale > 0 && outScale > 0 && AxisFits(size, scale, outScale) && from < to <= size
    requires var width := CeilDiv(size, scale) * outScale;
             0 <= o < width && Reads(o, size, width, from, to)
    ensures from / scale * outScale <= o < CeilDiv(to, scale) * outScale
  {
    var width := CeilDiv(size, scale) * outScale;
    AxisIsSafe(size, scale, outScale, o, First(o, size, width));
    AxisIsSafe(size, scale, outScale, o, Second(o, size, width));
    BlockCovered(size, width, scale, outScale, from, to, o);
  }

  /** All pixels along an axis do so exactly when the sizes fit. */
  lemma OwnBlocksExactly(size: nat, scale: Scale, outScale: Scale, width: nat)
    requires size > 0 && width == CeilDiv(size, scale) * outScale && width > 0
    ensures (forall o :: 0 <= o < width ==> OwnBlock(o, size, width, scale, outScale)) <==>
            AxisFits(size, scale, outScale)
  {
    AxisExactly(size, scale, outScale);
    assert AxisSafe(size, scale, outScale) <==>
           forall o, x :: 0 <= o < width && Mixes(o, size, width, x) ==> o / outScale == x / scale;
    if forall o :: 0 <= o < width ==> OwnBlock(o, size, width, scale, outScale) {
      forall o, x | 0 <= o < width && Mixes(o, size, width, x)
        ensures o / outScale == x / scale
      {
        assert OwnBlock(o, size, width, scale, outScale);
      }
    }
    if AxisSafe(size, scale, outScale) {
      forall o | 0 <= o < width
        ensures OwnBlock(o, size, width, scale, outScale)
      {
        assert Mixes(o, size, width, First(o, size, width)) && Mixes(o, size, width, Second(o, size, width));
      }
    }
  }

  lemma RangeOf(o: int, outScale: nat, low: int, high: int)
    requires outScale > 0
    ensures low * outScale <= o < high * outScale <==> low <= o / outScale < high
  {
    FloorDiv(o, outScale);
    if low <= o / outScale < high {
      Ordered(low, o / outScale, outScale);
      Ordered(o / outScale + 1, high, outScale);
    }
    if low * outScale <= o < high * outScale {
      Cancel(low, o / outScale + 1, outScale);
      Cancel(o / outScale, high, outScale);
    }
  }

  /** However a client damages a buffer of this size, the mapped rectangles hold
      every pixel that mixes in a dirty texel. */
  ghost predicate DamageEnough(w: nat, h: nat, scale: nat, outScale: nat)
    requires w > 0 && h > 0 && scale > 0 && outScale > 0
    requires CeilDiv(w, scale) * outScale > 0 && CeilDiv(h, scale) * outScale > 0
  {
    var width, height := CeilDiv(w, scale) * outScale, CeilDiv(h, scale) * outScale;
    forall c: Rect, p: Point ::
      Proper(c) && Within(c, Rect(0, 0, w, h)) && Contains(Rect(0, 0, width, height), p) && MixesIn(p, c, w, h, width, height)
      ==> Contains(ScaledRect(c, scale, outScale), p)
  }

  /** Damage along both axes is enough exactly when the sizes fit along both. */
  lemma EnoughExactly(w: nat, h: nat, scale: nat, outScale: nat)
    requires w > 0 && h > 0 && scale > 0 && outScale > 0
    ensures CeilDiv(w, scale) * outScale > 0 && CeilDiv(h, scale) * outScale > 0
    ensures DamageEnough(w, h, scale, outScale) <==> AxisFits(w, scale, outScale) && AxisFits(h, scale, outScale)
  {
    WidthPositive(w, scale, outScale);
    WidthPositive(h, scale, outScale);
    var width, height := CeilDiv(w, scale) * outScale, CeilDiv(h, scale) * outScale;
    if AxisFits(w, scale, outScale) && AxisFits(h, scale, outScale) {
      forall c: Rect, p: Point |
        Proper(c) && Within(c, Rect(0, 0, w, h)) && Contains(Rect(0, 0, width, height), p) && MixesIn(p, c, w, h, width, height)
        ensures Contains(ScaledRect(c, scale, outScale), p)
      {
        AxisCovered(w, scale, outScale, c.x0, c.x1, p.x);
        AxisCovered(h, scale, outScale, c.y0, c.y1, p.y);
      }
    } else {
      var c, p := MissedPixel(w, h, scale, outScale);
    }
  }

  /** One dirty texel and a pixel that mixes it in but is not damaged. */
  lemma MissedPixel(w: nat, h: nat, scale: nat, outScale: nat) returns (c: Rect, p: Point)
    requires w > 0 && h > 0 && scale > 0 && outScale > 0
    requires !(AxisFits(w, scale, outScale) && AxisFits(h, scale, outScale))
    ensures var width, height := CeilDiv(w, scale) * outScale, CeilDiv(h, scale) * outScale;
            && width > 0 && height > 0
            && Proper(c) && Within(c, Rect(0, 0, w, h)) && Contains(Rect(0, 0, width, height), p)
            && MixesIn(p, c, w, h, width, height) && !Contains(ScaledRect(c, scale, outScale), p)
            && c.x1 == c.x0 + 1 && c.y1 == c.y0 + 1
  {
    WidthPositive(w, scale, outScale);
    WidthPositive(h, scale, outScale);
    var width, height := CeilDiv(w, scale) * outScale, CeilDiv(h, scale) * outScale;
    if !AxisFits(w, scale, outScale) {
      var o, x := AxisWitness(w, scale, outScale);
      var y := First(0, h, height);
      c, p := Rect(x, y, x + 1, y + 1), Point(o, 0);
      TexelMissed(scale, outScale, o, x);
    } else {
      var o, y := AxisWitness(h, scale, outScale);
      var x := First(0, w, width);
      c, p := Rect(x, y, x + 1, y + 1), Point(0, o);
      TexelMissed(scale, outScale, o, y);
    }
  }

  lemma TexelMissed(scale: nat, outScale: nat, o: int, x: nat)
    requires scale > 0 && outScale > 0 && o / outScale != x / scale
    ensures !(x / scale * outScale <= o < CeilDiv(x + 1, scale) * outScale)
  {
    ScaledExactly(x, x + 1, scale, o / outScale);
    RangeOf(o, outScale, x / scale, CeilDiv(x + 1, scale));
  }
}
