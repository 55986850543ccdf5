/** Damage of a redraw, recorded when it is declared: origin and size of a dirty
    range are each divided by the buffer scale.  When that is enough. */
module AtOnce {
  import opened Geometry
  import opened Texture
  import opened Scaled

  /** Integer division as in C. */
  function Quotient(a: int, b: nat): int
    requires b > 0
  {
    if a >= 0 then a / b else -((-a) / b)
  }

  /** Origin and size of `[from, to)` divided on their own still hold every pixel
      that mixes in one of its texels. */
  ghost predicate AtOnceSafe(size: nat, scale: nat, outScale: nat)
    requires size > 0 && scale > 0 && outScale > 0 && CeilDiv(size, scale) * outScale > 0
  {
    forall from, to, o :: 0 <= from < to <= size && 0 <= o < CeilDiv(size, scale) * outScale &&
                          Reads(o, size, CeilDiv(size, scale) * outScale, from, to) ==>
                          from / scale * outScale <= o < (from / scale + CeilDiv(to - from, scale)) * outScale
  }

  predicate AtOnceFits(size: nat, scale: nat, outScale: nat)
    requires scale > 0
  {
    CeilDiv(size, scale) == 1 || (scale == 1 && outScale == 1)
  }

  lemma OneBlock(x: int, scale: nat)
    requires scale > 0 && 0 < x <= scale
    ensures CeilDiv(x, scale) == 1
  {
    FloorIs(x + scale - 1, scale, 1);
  }

  lemma AtOnceCovered(size: nat, scale: nat, outScale: nat, from: nat, to: nat, o: int)
    requires size > 0 && scale > 0 && outScale > 0 && AtOnceFits(size, scale, outScale) && from < to <= size
    requires var width := CeilDiv(size, scale) * outScale;
             0 <= o < width && Reads(o, size, width, from, to)
    ensures from / scale * outScale <= o < (from / scale + CeilDiv(to - from, scale)) * outScale
  {
    if scale == 1 && outScale == 1 {
      AtOnceUnscaled(size, from, to, o);
    } else {
      AtOnceOneBlock(size, scale, from, to);
    }
  }

  lemma AtOnceUnscaled(size: nat, from: nat, to: nat, o: int)
    requires from < to <= size && 0 <= o < CeilDiv(size, 1) && Reads(o, size, CeilDiv(size, 1), from, to)
    ensures from <= o < to && CeilDiv(to - from, 1) == to - from
  {
    AxisCovered(size, 1, 1, from, to, o);
  }

  lemma AtOnceOneBlock(size: nat, scale: nat, from: nat, to: nat)
    requires scale > 0 && CeilDiv(size, scale) == 1 && from < to <= size
    ensures from / scale == 0 && CeilDiv(to - from, scale) == 1
  {
    FloorDiv(size + scale - 1, scale);
    OneBlock(to - from, scale);
    FloorIs(from, scale, 0);
  }

  /** With several logical pixels and a buffer scale above one, the second logical
      pixel starts before the last texel of its block. */
  lemma StartsInside(n: nat, size: nat, scale: nat, outScale: nat)
    requires n > 1 && size > 0 && scale > 1 && outScale > 0 && size <= n * scale && n * outScale > 0
    ensures First(outScale, size, n * outScale) < 2 * scale - 1
  {
    var d := 2 * (n * outScale);
    var v := (2 * outScale + 1) * size - n * outScale;
    Ordered(size, n * scale, 2 * outScale + 1);
    assert (2 * outScale + 1) * (n * scale) - n * outScale == n * ((2 * outScale + 1) * scale - outScale);
    assert d * (2 * scale - 1) == n * (2 * outScale * (2 * scale - 1));
    StartsInsideUnit(scale, outScale);
    Ordered((2 * outScale + 1) * scale - outScale + 1, 2 * outScale * (2 * scale - 1), n);
    assert n * ((2 * outScale + 1) * scale - outScale + 1) == n * ((2 * outScale + 1) * scale - outScale) + n;
    FloorDiv(v, d);
    Cancel(v / d, 2 * scale - 1, d);
  }

  lemma StartsInsideUnit(scale: nat, outScale: nat)
    requires scale > 1 && outScale > 0
    ensures (2 * outScale + 1) * scale - outScale + 1 <= 2 * outScale * (2 * scale - 1)
  {
    assert 2 * outScale * (2 * scale - 1) == 2 * (outScale * scale) + 2 * (outScale * scale) - 2 * outScale;
    assert (2 * outScale + 1) * scale == 2 * (outScale * scale) + scale;
    Ordered(2, scale, outScale);
    Ordered(1, outScale, scale);
    assert outScale * scale == scale * outScale;
  }

  lemma AtOnceWitness(size: nat, scale: nat, outScale: nat) returns (from: nat, to: nat, o: int)
    requires size > 0 && scale > 0 && outScale > 0 && !AtOnceFits(size, scale, outScale)
    ensures var width := CeilDiv(size, scale) * outScale;
            width > 0 && from < to <= size && 0 <= o < width && Reads(o, size, width, from, to)
    ensures !(from / scale * outScale <= o < (from / scale + CeilDiv(to - from, scale)) * outScale)
  {
    var n := CeilDiv(size, scale);
    CeilFacts(size, scale);
    if !AxisFits(size, scale, outScale) {
      var x;
      o, x := AxisWitness(size, scale, outScale);
      from, to := x, x + 1;
      OneBlock(1, scale);
      RangeOf(o, outScale, x / scale, x / scale + 1);
    } else {
      WholeScale(n, size, scale, outScale);
      from, to, o := BlockWitness(n, size, scale, outScale);
    }
  }

  lemma WholeScale(n: nat, size: nat, scale: nat, outScale: nat)
    requires size > 0 && scale > 0 && outScale > 0 && n == CeilDiv(size, scale) && n > 1
    requires AxisFits(size, scale, outScale) && !(scale == 1 && outScale == 1)
    ensures scale > 1
  {
    if scale == 1 {
      assert n == size;
      assert 2 * outScale * (n - 1) * (n * scale - size) == 0;
      Ordered(2, outScale, n);
    }
  }

  /** A dirty range as long as the scale that starts in the first logical pixel and
      reaches into the second. */
  lemma BlockWitness(n: nat, size: nat, scale: nat, outScale: nat) returns (from: nat, to: nat, o: int)
    requires size > 0 && scale > 1 && outScale > 0 && n == CeilDiv(size, scale) && n > 1
    requires AxisFits(size, scale, outScale)
    ensures n * outScale > 0 && from < to <= size && 0 <= o < n * outScale && Reads(o, size, n * outScale, from, to)
    ensures !(from / scale * outScale <= o < (from / scale + CeilDiv(to - from, scale)) * outScale)
  {
    WidthPositive(size, scale, outScale);
    CeilFacts(size, scale);
    Ordered(2, n, outScale);
    o := outScale;
    var x := First(o, size, n * outScale);
    StartsInside(n, size, scale, outScale);
    AxisIsSafe(size, scale, outScale, o, x);
    FloorIs(o, outScale, 1);
    FloorIs(x, scale, 1);
    from, to := x + 1 - scale, x + 1;
    FloorIs(from, scale, 0);
    OneBlock(scale, scale);
  }

  /** Such damage is enough along an axis exactly when there is one logical pixel,
      or neither the buffer nor the output is scaled. */
  lemma AtOnceExactly(size: nat, scale: nat, outScale: nat)
    requires size > 0 && scale > 0 && outScale > 0
    ensures CeilDiv(size, scale) * outScale > 0
    ensures AtOnceSafe(size, scale, outScale) <==> AtOnceFits(size, scale, outScale)
  {
    WidthPositive(size, scale, outScale);
    if AtOnceFits(size, scale, outScale) {
      forall from, to, o | 0 <= from < to <= size && 0 <= o < CeilDiv(size, scale) * outScale &&
                           Reads(o, size, CeilDiv(size, scale) * outScale, from, to)
        ensures from / scale * outScale <= o < (from / scale + CeilDiv(to - from, scale)) * outScale
      {
        AtOnceCovered(size, scale, outScale, from, to, o);
      }
    } else {
      var from, to, o := AtOnceWitness(size, scale, outScale);
    }
  }

  // ---- one texel -----------------------------------------------------------------------------------------

  /** A texel of the first logical pixel, or the last one of its logical pixel. */
  predicate AtEdge(x: int, scale: Scale) {
    x < scale || (x + 1) % scale == 0
  }

  /** Every range that has texel `x` also reaches, so divided, its logical pixel. */
  lemma EdgeHolds(x: nat, scale: Scale, from: int, to: int)
    requires AtEdge(x, scale) && from <= x < to
    ensures Quotient(from, scale) <= x / scale < Quotient(from, scale) + Quotient(to - from + scale - 1, scale)
  {
    var b := x / scale;
    FloorDiv(x, scale);
    DivMonotone(0, x, scale);
    if from < 0 {
      EdgeFromBefore(x, scale, from, to);
    } else {
      DivMonotone(from, x, scale);
      if x < scale {
        FloorIs(x, scale, 0);
        FloorIs(from, scale, 0);
        DivMonotone(scale, to - from + scale - 1, scale);
      } else {
        EdgeFromInside(x, scale, from, to);
      }
    }
  }

  lemma EdgeFromBefore(x: nat, scale: Scale, from: int, to: int)
    requires from < 0 && x < to
    ensures Quotient(from, scale) <= 0 && x / scale < Quotient(from, scale) + Quotient(to - from + scale - 1, scale)
  {
    var q, b := -from / scale, x / scale;
    FloorDiv(-from, scale);
    FloorDiv(x, scale);
    DivMonotone(0, -from, scale);
    assert scale * (q + b + 1) == scale * q + scale * b + scale;
    FloorDiv(to - from + scale - 1, scale);
    Cancel(q + b + 1, (to - from + scale - 1) / scale + 1, scale);
  }

  lemma EdgeFromInside(x: nat, scale: Scale, from: nat, to: int)
    requires (x + 1) % scale == 0 && from <= x < to
    ensures x / scale < from / scale + Quotient(to - from + scale - 1, scale)
  {
    var q, b := from / scale, x / scale;
    LastTexel(x, scale);
    FloorDiv(from, scale);
    FloorDiv(to - from + scale - 1, scale);
    assert scale * (b + 1 - q) == scale * (b + 1) - scale * q;
    Cancel(b + 1 - q, (to - from + scale - 1) / scale + 1, scale);
  }

  lemma LastTexel(x: nat, scale: Scale)
    requires (x + 1) % scale == 0
    ensures x + 1 == scale * (x / scale + 1)
  {
    FloorDiv(x, scale);
    assert x + 1 == scale * ((x + 1) / scale);
    Cancel(x / scale, (x + 1) / scale, scale);
    Cancel((x + 1) / scale, x / scale + 2, scale);
  }

  /** Otherwise a range that ends with the texel does not. */
  lemma EdgeWitness(x: nat, scale: Scale) returns (from: nat)
    requires !AtEdge(x, scale)
    ensures from <= x && from / scale + CeilDiv(x + 1 - from, scale) <= x / scale
  {
    var b := x / scale;
    FloorDiv(x, scale);
    DivMonotone(scale, x, scale);
    Ordered(1, b, scale);
    from := b * scale - 1;
    FloorIs(from, scale, b - 1);
    NotLast(x, scale);
    OneBlock(x + 1 - from, scale);
  }

  lemma NotLast(x: nat, scale: Scale)
    requires (x + 1) % scale != 0
    ensures x - scale * (x / scale) + 2 <= scale
  {
    FloorDiv(x, scale);
    var y := x + 1;
    assert y == scale * (y / scale) + y % scale;
    if y == scale * (x / scale + 1) {
      FloorIs(y, scale, x / scale + 1);
    }
  }

  // ---- one output pixel ------------------------------------------------------------------------------------

  /** An output pixel mixes only such texels of its own logical pixel. */
  predicate OwnEdges(o: int, size: nat, width: nat, scale: Scale, outScale: Scale)
    requires size > 0 && width > 0
  {
    && OwnBlock(o, size, width, scale, outScale)
    && AtEdge(First(o, size, width), scale) && AtEdge(Second(o, size, width), scale)
  }

  /** Any range, also one past the ends of the buffer, that has a texel the pixel
      mixes then damages the pixel. */
  lemma EdgesHold(o: int, size: nat, width: nat, scale: Scale, outScale: Scale, from: int, to: int)
    requires size > 0 && width > 0 && OwnEdges(o, size, width, scale, outScale) && Reads(o, size, width, from, to)
    ensures var first, blocks := Quotient(from, scale), Quotient(to - from + scale - 1, scale);
            first * outScale <= o < (first + blocks) * outScale
  {
    var x := if from <= First(o, size, width) < to then First(o, size, width) else Second(o, size, width);
    MixesInside(o, size, width, x);
    EdgeHolds(x, scale, from, to);
    RangeOf(o, outScale, Quotient(from, scale), Quotient(from, scale) + Quotient(to - from + scale - 1, scale));
  }

  /** Otherwise some range within the buffer, ending with a mixed texel, does not. */
  lemma EdgesWitness(o: int, size: nat, width: nat, scale: Scale, outScale: Scale) returns (from: nat, x: nat)
    requires size > 0 && width > 0 && !OwnEdges(o, size, width, scale, outScale)
    ensures from <= x < size && Mixes(o, size, width, x)
    ensures !(from / scale * outScale <= o < (from / scale + CeilDiv(x + 1 - from, scale)) * outScale)
  {
    var first := First(o, size, width);
    var bad := first / scale != o / outScale || !AtEdge(first, scale);
    x := if bad then first else Second(o, size, width);
    MixesInside(o, size, width, x);
    if x / scale != o / outScale {
      from := x;
      OneBlock(1, scale);
    } else {
      from := EdgeWitness(x, scale);
    }
    RangeOf(o, outScale, from / scale, from / scale + CeilDiv(x + 1 - from, scale));
  }

  /** For whole logical pixels all of this happens exactly when there is only one, or
      nothing is scaled. */
  lemma OwnEdgesExactly(size: nat, scale: Scale, outScale: Scale, width: nat)
    requires size > 0 && width == CeilDiv(size, scale) * outScale && width > 0
    ensures (forall o :: 0 <= o < width ==> OwnEdges(o, size, width, scale, outScale)) <==>
            AtOnceFits(size, scale, outScale)
  {
    AtOnceExactly(size, scale, outScale);
    if AtOnceFits(size, scale, outScale) {
      forall o | 0 <= o < width
        ensures OwnEdges(o, size, width, scale, outScale)
      {
        if !OwnEdges(o, size, width, scale, outScale) {
          var from, x := EdgesWitness(o, size, width, scale, outScale);
          AtOnceCovered(size, scale, outScale, from, x + 1, o);
        }
      }
    }
    if forall o :: 0 <= o < width ==> OwnEdges(o, size, width, scale, outScale) {
      if !AtOnceFits(size, scale, outScale) {
        var from, to, o := AtOnceWitness(size, scale, outScale);
        assert OwnEdges(o, size, width, scale, outScale);
        EdgesHold(o, size, width, scale, outScale, from, to);
      }
    }
  }
}
