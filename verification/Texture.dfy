/** What a client buffer looks like once it is stretched over output pixels: each
    pixel mixes the texels that a bilinear sample at its centre weighs above zero. */
module Texture {
  import opened Geometry

  /** One premultiplied output pixel word. */
  type Colour = int

  /** A committed buffer.  Only shared-memory buffers carry declared damage. */
  datatype Buffer = Buffer(w: nat, h: nat, texels: (int, int) -> Colour, shm: bool)

  /** An integer buffer or output scale. */
  type Scale = n: nat | n > 0 witness 1

  /** The filter's arithmetic: the fractions along both axes and the four texels. */
  type Mix = (int, int, Colour, Colour, Colour, Colour) -> Colour

  /** The texel at or before the sample position (o + 1/2) * src / dst - 1/2. */
  function Texel(o: int, src: nat, dst: nat): int
    requires src > 0 && dst > 0
  {
    ((2 * o + 1) * src - dst) / (2 * dst)
  }

  /** How far past that texel the sample lies, in units of 1 / (2 * dst). */
  function Fraction(o: int, src: nat, dst: nat): int
    requires src > 0 && dst > 0
  {
    ((2 * o + 1) * src - dst) % (2 * dst)
  }

  /** Texels outside the buffer repeat its edge. */
  function Clamp(t: int, size: nat): int
    requires size > 0
  {
    Max(0, Min(t, size - 1))
  }

  function First(o: int, src: nat, dst: nat): int
    requires src > 0 && dst > 0
  {
    Clamp(Texel(o, src, dst), src)
  }

  /** The next texel has weight only if the sample is not on the first one. */
  function Second(o: int, src: nat, dst: nat): int
    requires src > 0 && dst > 0
  {
    if Fraction(o, src, dst) == 0 then First(o, src, dst) else Clamp(Texel(o, src, dst) + 1, src)
  }

  /** Pixel `o` mixes in texel `x` along one axis. */
  predicate Mixes(o: int, src: nat, dst: nat, x: int)
    requires src > 0 && dst > 0
  {
    x == First(o, src, dst) || x == Second(o, src, dst)
  }

  /** Pixel `o` mixes in a texel of `[from, to)`. */
  predicate Reads(o: int, src: nat, dst: nat, from: int, to: int)
    requires src > 0 && dst > 0
  {
    from <= First(o, src, dst) < to || from <= Second(o, src, dst) < to
  }

  /** The colour of the pixel (x, y) of a buffer stretched over w by h pixels. */
  function Sample(b: Buffer, mix: Mix, w: int, h: int, x: int, y: int): Colour {
    if b.w == 0 || b.h == 0 || w <= 0 || h <= 0 then 0
    else
      var x0, x1, y0, y1 := First(x, b.w, w), Second(x, b.w, w), First(y, b.h, h), Second(y, b.h, h);
      mix(Fraction(x, b.w, w), Fraction(y, b.h, h), b.texels(x0, y0), b.texels(x1, y0), b.texels(x0, y1), b.texels(x1, y1))
  }

  // ---- a part of a buffer ------------------------------------------------------------------------

  /** Where a sample falls: the fractions and the texels on both axes. */
  datatype Spot = NoSpot | Spot(fx: int, fy: int, x0: int, x1: int, y0: int, y1: int)

  /** Where the pixel (x, y) of a part of a w by h buffer, stretched over width by
      height pixels, is sampled.  The filter may reach texels beside the part. */
  function SpotIn(w: nat, h: nat, part: Rect, width: int, height: int, x: int, y: int): Spot {
    var partW, partH := part.x1 - part.x0, part.y1 - part.y0;
    if w == 0 || h == 0 || partW <= 0 || partH <= 0 || width <= 0 || height <= 0 then NoSpot
    else
      var i, j := part.x0 + Texel(x, partW, width), part.y0 + Texel(y, partH, height);
      var fx, fy := Fraction(x, partW, width), Fraction(y, partH, height);
      Spot(fx, fy, Clamp(i, w), if fx == 0 then Clamp(i, w) else Clamp(i + 1, w),
           Clamp(j, h), if fy == 0 then Clamp(j, h) else Clamp(j + 1, h))
  }

  function SampleAt(texels: (int, int) -> Colour, mix: Mix, at: Spot): Colour {
    match at
    case NoSpot => 0
    case Spot(fx, fy, x0, x1, y0, y1) => mix(fx, fy, texels(x0, y0), texels(x1, y0), texels(x0, y1), texels(x1, y1))
  }

  /** The whole buffer is a part of itself. */
  lemma WholePart(b: Buffer, mix: Mix, width: int, height: int, x: int, y: int)
    ensures SampleAt(b.texels, mix, SpotIn(b.w, b.h, Rect(0, 0, b.w, b.h), width, height, x, y)) ==
            Sample(b, mix, width, height, x, y)
  {
  }

  /** Buffers of one size that agree on every texel a pixel mixes look the same there. */
  lemma SampleAlike(a: Buffer, b: Buffer, mix: Mix, w: int, h: int, x: int, y: int)
    requires a.w == b.w && a.h == b.h
    requires a.w > 0 && a.h > 0 && w > 0 && h > 0 ==>
               forall i, j :: Mixes(x, a.w, w, i) && Mixes(y, a.h, h, j) ==> a.texels(i, j) == b.texels(i, j)
    ensures Sample(a, mix, w, h, x, y) == Sample(b, mix, w, h, x, y)
  {
  }

  // ---- arithmetic of the sample position ---------------------------------------------------------

  function CeilDiv(a: nat, b: nat): nat
    requires b > 0
  {
    (a + b - 1) / b
  }

  lemma FloorDiv(a: int, b: nat)
    requires b > 0
    ensures b * (a / b) <= a < b * (a / b + 1)
  {
  }

  /** If multiples of `k` are ordered, so are the multipliers. */
  lemma Cancel(x: int, y: int, k: nat)
    requires k > 0 && k * x < k * y
    ensures x < y
  {
  }

  lemma Ordered(x: int, y: int, k: nat)
    requires x <= y
    ensures k * x <= k * y
  {
  }

  lemma FloorIs(b: int, k: nat, q: int)
    requires k > 0
    ensures k * q <= b < k * (q + 1) <==> b / k == q
  {
    FloorDiv(b, k);
    if k * q <= b < k * (q + 1) {
      Cancel(b / k, q + 1, k);
      Cancel(q, b / k + 1, k);
    }
  }

  lemma DivMonotone(a: int, b: int, k: nat)
    requires k > 0 && a <= b
    ensures a / k <= b / k
  {
    FloorDiv(a, k);
    FloorDiv(b, k);
    Cancel(a / k, b / k + 1, k);
  }

  /** The samples of the output start at most half a texel outside the buffer. */
  lemma TexelRange(o: int, src: nat, dst: nat)
    requires src > 0 && dst > 0 && 0 <= o < dst
    ensures -1 <= Texel(o, src, dst) < src
  {
    var n := (2 * o + 1) * src - dst;
    assert 0 <= (2 * o + 1) * src;
    assert (2 * o + 1) * src <= (2 * dst - 1) * src;
    assert (2 * dst - 1) * src == (2 * dst) * src - src;
    FloorDiv(n, 2 * dst);
    Cancel(-1, Texel(o, src, dst) + 1, 2 * dst);
    Cancel(Texel(o, src, dst), src, 2 * dst);
  }
}
