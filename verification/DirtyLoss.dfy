/** When the damage a client declares on its buffer, mapped to the output, is
    enough: always for a surface stretched over the output, and for one drawn at an
    integer scale exactly when its sizes leave the linear filter no margin. */
module DirtyLoss {
  import opened Options
  import opened Geometry
  import opened Texture
  import opened Scene
  import opened ZOrder
  import opened Stretch
  import opened Scaled
  import opened Requests
  import opened RequestLoss

  /** All that an honest client promises: texels it did not declare are unchanged. */
  ghost predicate SameOutside(a: Buffer, b: Buffer, dirty: seq<Rect>) {
    forall i, j :: 0 <= i < a.w && 0 <= j < a.h && a.texels(i, j) != b.texels(i, j) ==> Covered(dirty, Point(i, j))
  }

  /** A commit whose declared damage is kept and true. */
  ghost predicate HonestCommit(s: Surface, c: Content, dirty: seq<Rect>) {
    Preserved(s, c, dirty) && c.blends == s.blends && SameOutside(s.buffer, c.buffer, Held(dirty, s.buffer.w, s.buffer.h))
  }

  /** The output pixel from the corner of the surface. */
  function Inside(s: Surface, p: Point): Point {
    Point(p.x - s.rect.x0, p.y - s.rect.y0)
  }

  /** A pixel that mixes in no dirty texel keeps its colour. */
  lemma SampleKept(a: Buffer, b: Buffer, filter: Mix, width: int, height: int, p: Point, dirty: seq<Rect>)
    requires a.w == b.w && a.h == b.h && SameOutside(a, b, dirty)
    requires a.w > 0 && a.h > 0 && width > 0 && height > 0 ==>
               forall c :: c in dirty ==> !MixesIn(p, c, a.w, a.h, width, height)
    ensures Sample(a, filter, width, height, p.x, p.y) == Sample(b, filter, width, height, p.x, p.y)
  {
    if a.w > 0 && a.h > 0 && width > 0 && height > 0 {
      forall i, j | Mixes(p.x, a.w, width, i) && Mixes(p.y, a.h, height, j)
        ensures a.texels(i, j) == b.texels(i, j)
      {
        MixesInside(p.x, a.w, width, i);
        MixesInside(p.y, a.h, height, j);
        assert Covered(dirty, Point(i, j)) ==> exists c :: c in dirty && Contains(c, Point(i, j));
      }
    }
    SampleAlike(a, b, filter, width, height, p.x, p.y);
  }

  lemma SameLayerAlike(t: Target, d: Surface, d': Surface, p: Point)
    requires (Hits(d, p) <==> Hits(d', p)) && d.blends == d'.blends && d.blend == d'.blend
    requires Hits(d, p) ==> ColourAt(d, p) == ColourAt(d', p)
    ensures forall c :: Over(d, p, c) == Over(d', p, c)
  {
  }

  /** Such a commit leaves a surface in place, and alike wherever its colour stays. */
  lemma KeptAlike(t: Target, s: Surface, s': Surface, p: Point)
    requires s' == s.(buffer := s'.buffer)
    requires OnOutput(s, p) ==> ColourAt(s, p) == ColourAt(s', p)
    ensures Alike(t, s, s', p)
  {
    DrawnColour(t, s, p);
    DrawnColour(t, s', p);
    SameLayerAlike(t, Drawn(t, s), Drawn(t, s'), p);
  }

  /** New texels under the same damage: the colour stays where no pixel of the
      surface mixes in any of them. */
  lemma ColourKept(s: Surface, s': Surface, held: seq<Rect>, p: Point)
    requires s.viewport.src.None? && s' == s.(buffer := s'.buffer) && s'.buffer.w == s.buffer.w
    requires s'.buffer.h == s.buffer.h
    requires SameOutside(s.buffer, s'.buffer, held)
    requires var width, height := s.rect.x1 - s.rect.x0, s.rect.y1 - s.rect.y0;
             s.buffer.w > 0 && s.buffer.h > 0 && width > 0 && height > 0 ==>
               forall k :: 0 <= k < |held| ==> !MixesIn(Inside(s, p), held[k], s.buffer.w, s.buffer.h, width, height)
    ensures ColourAt(s, p) == ColourAt(s', p)
  {
    var width, height := s.rect.x1 - s.rect.x0, s.rect.y1 - s.rect.y0;
    SampleKept(s.buffer, s'.buffer, s.filter, width, height, Inside(s, p), held);
  }

  // ---- stretched over the output ---------------------------------------------------------------------

  lemma StretchedAfter(s: Surface, c: Content, dirty: seq<Rect>, outScale: Scale, output: Rect)
    requires s.fills && s.rect == output && HonestCommit(s, c, dirty)
    ensures After(s, Commit(c, dirty), outScale, output) == s.(buffer := c.buffer)
  {
  }

  lemma StretchedRecorded(s: Surface, c: Content, dirty: seq<Rect>, outScale: Scale, output: Rect)
    requires Proper(output) && s.fills && s.rect == output && HonestCommit(s, c, dirty)
    ensures Recorded(Window(s.id), s, Commit(c, dirty), outScale, output) ==
            DirtyRects(s.(buffer := c.buffer), dirty, outScale, output)
  {
    StretchedAfter(s, c, dirty, outScale, output);
  }

  lemma StretchedMisses(held: seq<Rect>, k: nat, w: nat, h: nat, width: nat, height: nat, p: Point)
    requires w > 0 && h > 0 && Contains(Rect(0, 0, width, height), p) && k < |held| && InBuffer(held, w, h)
    requires !Covered(Mapped(held, Rect(0, 0, w, h), width, height), p)
    ensures !MixesIn(p, held[k], w, h, width, height)
  {
    assert ClipDirty(held[k], Rect(0, 0, w, h)) == held[k];
    if Samples(p, held[k], w, h, width, height) {
      MappedCovers(held, k, Rect(0, 0, w, h), width, height, p);
    }
  }

  lemma StretchedKept(s: Surface, s': Surface, held: seq<Rect>, output: Rect, p: Point)
    requires Contains(output, p) && output.x0 == 0 && output.y0 == 0 && s.rect == output && s.viewport == UNSET
    requires s' == s.(buffer := s'.buffer) && s'.buffer.w == s.buffer.w > 0 && s'.buffer.h == s.buffer.h > 0
    requires SameOutside(s.buffer, s'.buffer, held) && InBuffer(held, s.buffer.w, s.buffer.h)
    requires !Covered(Mapped(held, Rect(0, 0, s.buffer.w, s.buffer.h), output.x1 - output.x0, output.y1 - output.y0), p)
    ensures ColourAt(s, p) == ColourAt(s', p)
  {
    assert output.x1 - output.x0 == output.x1 && output.y1 - output.y0 == output.y1;
    forall k | 0 <= k < |held|
      ensures !MixesIn(p, held[k], s.buffer.w, s.buffer.h, output.x1, output.y1)
    {
      StretchedMisses(held, k, s.buffer.w, s.buffer.h, output.x1, output.y1, p);
    }
    ColourKept(s, s', held, p);
  }

  /** A fullscreen window loses no pixel to honest damage, whatever its size. */
  lemma StretchedSafe(s: Surface, c: Content, dirty: seq<Rect>, outScale: Scale, output: Rect)
    requires Proper(output) && output.x0 == 0 && output.y0 == 0
    requires s.fills && s.rect == output && HonestCommit(s, c, dirty)
    ensures Lossless(Window(s.id), s, Commit(c, dirty), outScale, output)
  {
    var t, s' := Window(s.id), s.(buffer := c.buffer);
    LosslessIs(t, s, Commit(c, dirty), outScale, output);
    StretchedAfter(s, c, dirty, outScale, output);
    StretchedRecorded(s, c, dirty, outScale, output);
    forall p | Contains(output, p) && !Covered(DirtyRects(s', dirty, outScale, output), p)
      ensures Alike(t, s, s', p)
    {
      StretchedAlike(s, s', dirty, outScale, output, p);
    }
  }

  lemma StretchedAlike(s: Surface, s': Surface, dirty: seq<Rect>, outScale: Scale, output: Rect, p: Point)
    requires Contains(output, p) && output.x0 == 0 && output.y0 == 0
    requires s.fills && s.hasBuffer && s.rect == output && s.viewport == UNSET
    requires s' == s.(buffer := s'.buffer) && s'.buffer.w == s.buffer.w && s'.buffer.h == s.buffer.h
    requires SameOutside(s.buffer, s'.buffer, Held(dirty, s.buffer.w, s.buffer.h))
    requires !Covered(DirtyRects(s', dirty, outScale, output), p)
    ensures Alike(Window(s.id), s, s', p)
  {
    var w, h := s.buffer.w, s.buffer.h;
    WholeCovers(s', p);
    StretchedKept(s, s', Held(dirty, w, h), output, p);
    KeptAlike(Window(s.id), s, s', p);
  }

  // ---- drawn at an integer scale -----------------------------------------------------------------------

  /** A surface of this buffer size and scale, at its place. */
  predicate Fitted(s: Surface, w: nat, h: nat, scale: Scale, outScale: Scale) {
    && s.hasBuffer && !s.fills && s.viewport == UNSET && s.buffer.w == w && s.buffer.h == h && s.scale == scale
    && s.rect.x1 == s.rect.x0 + CeilDiv(w, scale) * outScale && s.rect.y1 == s.rect.y0 + CeilDiv(h, scale) * outScale
  }

  /** Every output pixel of the window that is on the output mixes only texels of its
      own logical pixel, along both axes. */
  ghost predicate FitsOn(w: nat, h: nat, scale: Scale, outScale: Scale, rect: Rect, output: Rect)
    requires w > 0 && h > 0
  {
    forall p :: Contains(output, p) && Contains(rect, p) ==> FitsAt(w, h, scale, outScale, rect, p)
  }

  predicate FitsAt(w: nat, h: nat, scale: Scale, outScale: Scale, rect: Rect, p: Point)
    requires w > 0 && h > 0 && Contains(rect, p)
  {
    && OwnBlock(p.x - rect.x0, w, rect.x1 - rect.x0, scale, outScale)
    && OwnBlock(p.y - rect.y0, h, rect.y1 - rect.y0, scale, outScale)
  }

  /** For a window wholly on the output that is exactly when its sizes fit. */
  lemma FitsOnExactly(w: nat, h: nat, scale: Scale, outScale: Scale, rect: Rect, output: Rect)
    requires w > 0 && h > 0 && Within(rect, output)
    requires rect.x1 == rect.x0 + CeilDiv(w, scale) * outScale && rect.y1 == rect.y0 + CeilDiv(h, scale) * outScale
    ensures FitsOn(w, h, scale, outScale, rect, output) <==> AxisFits(w, scale, outScale) && AxisFits(h, scale, outScale)
  {
    WidthPositive(w, scale, outScale);
    WidthPositive(h, scale, outScale);
    var width, height := rect.x1 - rect.x0, rect.y1 - rect.y0;
    OwnBlocksExactly(w, scale, outScale, width);
    OwnBlocksExactly(h, scale, outScale, height);
    if FitsOn(w, h, scale, outScale, rect, output) {
      forall o | 0 <= o < width
        ensures OwnBlock(o, w, width, scale, outScale)
      {
        assert FitsAt(w, h, scale, outScale, rect, Point(rect.x0 + o, rect.y0));
      }
      forall o | 0 <= o < height
        ensures OwnBlock(o, h, height, scale, outScale)
      {
        assert FitsAt(w, h, scale, outScale, rect, Point(rect.x0, rect.y0 + o));
      }
    }
  }

  lemma ScaledMisses(held: seq<Rect>, k: nat, w: nat, h: nat, scale: Scale, outScale: Scale, x: int, y: int, q: Point,
                     width: nat, height: nat)
    requires w > 0 && h > 0 && width > 0 && height > 0
    requires OwnBlock(q.x, w, width, scale, outScale) && OwnBlock(q.y, h, height, scale, outScale)
    requires k < |held| && InBuffer(held, w, h)
    requires !Covered(ScaledRects(held, scale, outScale, x, y), Point(q.x + x, q.y + y))
    ensures !MixesIn(q, held[k], w, h, width, height)
  {
    var rects := ScaledRects(held, scale, outScale, x, y);
    var c := held[k];
    assert !Contains(rects[k], Point(q.x + x, q.y + y));
    if MixesIn(q, c, w, h, width, height) {
      BlockCovered(w, width, scale, outScale, c.x0, c.x1, q.x);
      BlockCovered(h, height, scale, outScale, c.y0, c.y1, q.y);
    }
  }

  lemma ScaledKept(s: Surface, s': Surface, w: nat, h: nat, held: seq<Rect>, outScale: Scale, p: Point)
    requires w > 0 && h > 0 && Fitted(s, w, h, s.scale, outScale) && Contains(s.rect, p)
    requires s' == s.(buffer := s'.buffer) && s'.buffer.w == w && s'.buffer.h == h
    requires SameOutside(s.buffer, s'.buffer, held) && InBuffer(held, w, h)
    requires FitsAt(w, h, s.scale, outScale, s.rect, p)
    requires !Covered(ScaledRects(held, s.scale, outScale, s.rect.x0, s.rect.y0), p)
    ensures ColourAt(s, p) == ColourAt(s', p)
  {
    var width, height := s.rect.x1 - s.rect.x0, s.rect.y1 - s.rect.y0;
    var q := Inside(s, p);
    assert p == Point(q.x + s.rect.x0, q.y + s.rect.y0);
    forall k | 0 <= k < |held|
      ensures !MixesIn(q, held[k], w, h, width, height)
    {
      ScaledMisses(held, k, w, h, s.scale, outScale, s.rect.x0, s.rect.y0, q, width, height);
    }
    ColourKept(s, s', held, p);
  }

  lemma ScaledAfter(s: Surface, w: nat, h: nat, c: Content, dirty: seq<Rect>, outScale: Scale, output: Rect)
    requires Proper(output) && Fitted(s, w, h, s.scale, outScale) && Preserved(s, c, dirty) && c.blends == s.blends
    ensures After(s, Commit(c, dirty), outScale, output) == s.(buffer := c.buffer)
    ensures Recorded(Window(s.id), s, Commit(c, dirty), outScale, output) ==
            ScaledRects(Held(dirty, w, h), s.scale, outScale, s.rect.x0, s.rect.y0)
  {
  }

  /** A window loses no pixel to honest damage if its sizes fit where it is shown. */
  lemma ScaledSafe(s: Surface, w: nat, h: nat, c: Content, dirty: seq<Rect>, outScale: Scale, output: Rect)
    requires Proper(output) && w > 0 && h > 0 && Fitted(s, w, h, s.scale, outScale) && HonestCommit(s, c, dirty)
    requires FitsOn(w, h, s.scale, outScale, s.rect, output)
    ensures Lossless(Window(s.id), s, Commit(c, dirty), outScale, output)
  {
    var t, s' := Window(s.id), s.(buffer := c.buffer);
    LosslessIs(t, s, Commit(c, dirty), outScale, output);
    ScaledAfter(s, w, h, c, dirty, outScale, output);
    forall p | Contains(output, p) && !Covered(Recorded(t, s, Commit(c, dirty), outScale, output), p)
      ensures Alike(t, s, s', p)
    {
      if OnOutput(s, p) {
        ScaledKept(s, s', w, h, Held(dirty, w, h), outScale, p);
      }
      KeptAlike(t, s, s', p);
    }
  }

  // ---- when it is not enough -----------------------------------------------------------------------------

  /** A filter that lets every texel through. */
  const SUM: Mix := (fx, fy, a, b, c, d) => a + b + c + d

  /** A plain window over the given buffer. */
  function Plain(rect: Rect, buffer: Buffer, scale: Scale): Surface {
    Surface(0, Toplevel, None, false, true, rect, buffer, scale, UNSET, false, false, SUM, (top, below) => top)
  }

  function Black(w: nat, h: nat): Buffer {
    Buffer(w, h, (i, j) => 0, true)
  }

  /** Black but for one texel. */
  function OneTexel(w: nat, h: nat, x: int, y: int): Buffer {
    Buffer(w, h, (i, j) => if i == x && j == y then 1 else 0, true)
  }

  /** A pixel that mixes in the one texel shows it. */
  lemma OneTexelSeen(w: nat, h: nat, x: int, y: int, width: nat, height: nat, p: Point)
    requires w > 0 && h > 0 && width > 0 && height > 0 && MixesIn(p, Rect(x, y, x + 1, y + 1), w, h, width, height)
    ensures Sample(Black(w, h), SUM, width, height, p.x, p.y) == 0
    ensures Sample(OneTexel(w, h, x, y), SUM, width, height, p.x, p.y) > 0
  {
    var x0, x1, y0, y1 := First(p.x, w, width), Second(p.x, w, width), First(p.y, h, height), Second(p.y, h, height);
    assert (x == x0 || x == x1) && (y == y0 || y == y1);
    var b := OneTexel(w, h, x, y);
    assert b.texels(x0, y0) + b.texels(x1, y0) + b.texels(x0, y1) + b.texels(x1, y1) > 0;
  }

  lemma OneListed(c: Rect, w: nat, h: nat)
    requires Proper(c) && Within(c, Rect(0, 0, w, h))
    ensures Listed([c], w, h) == [c] && Held([c], w, h) == [c]
  {
    assert [c][..0] == [];
    assert Listed([], w, h) == [];
  }

  /** The black buffer and the one with a texel set differ only in that texel. */
  lemma OneDiffers(w: nat, h: nat, x: int, y: int)
    ensures SameOutside(Black(w, h), OneTexel(w, h, x, y), [Rect(x, y, x + 1, y + 1)])
  {
    forall i, j | 0 <= i < w && 0 <= j < h && Black(w, h).texels(i, j) != OneTexel(w, h, x, y).texels(i, j)
      ensures Covered([Rect(x, y, x + 1, y + 1)], Point(i, j))
    {
      assert Contains([Rect(x, y, x + 1, y + 1)][0], Point(i, j));
    }
  }

  /** Setting the texel changes what the window shows at the pixel. */
  lemma OneTexelShows(rect: Rect, w: nat, h: nat, scale: Scale, d: Rect, width: nat, height: nat, q: Point)
    requires w > 0 && h > 0 && width > 0 && height > 0 && d.x1 == d.x0 + 1 && d.y1 == d.y0 + 1
    requires rect.x1 == rect.x0 + width && rect.y1 == rect.y0 + height && MixesIn(q, d, w, h, width, height)
    ensures var p := Point(q.x + rect.x0, q.y + rect.y0);
            ColourAt(Plain(rect, Black(w, h), scale), p) != ColourAt(Plain(rect, OneTexel(w, h, d.x0, d.y0), scale), p)
  {
    assert d == Rect(d.x0, d.y0, d.x0 + 1, d.y0 + 1);
    OneTexelSeen(w, h, d.x0, d.y0, width, height, q);
    var p := Point(q.x + rect.x0, q.y + rect.y0);
    assert p.x - rect.x0 == q.x && p.y - rect.y0 == q.y && rect.x1 - rect.x0 == width && rect.y1 - rect.y0 == height;
  }

  lemma DifferentNotAlike(s: Surface, s': Surface, rects: seq<Rect>, output: Rect, p: Point)
    requires !s.blends && !s'.blends && Hits(s, p) && Hits(s', p) && ColourAt(s, p) != ColourAt(s', p)
    requires Contains(output, p) && !Covered(rects, p)
    ensures !AlikeOutside(Window(s.id), s, s', rects, output)
  {
    UnblendedAlike(Window(s.id), s, s', p);
  }

  /** At a pixel that mixes a texel of another logical pixel: that texel. */
  lemma OtherTexel(w: nat, h: nat, scale: Scale, outScale: Scale, rect: Rect, p: Point) returns (d: Rect, q: Point)
    requires w > 0 && h > 0 && Contains(rect, p) && !FitsAt(w, h, scale, outScale, rect, p)
    ensures q == Point(p.x - rect.x0, p.y - rect.y0) && d.x1 == d.x0 + 1 && d.y1 == d.y0 + 1
    ensures InQuadrant(d) && Proper(d) && Within(d, Rect(0, 0, w, h))
    ensures MixesIn(q, d, w, h, rect.x1 - rect.x0, rect.y1 - rect.y0) && !Contains(ScaledRect(d, scale, outScale), q)
  {
    var width, height := rect.x1 - rect.x0, rect.y1 - rect.y0;
    q := Point(p.x - rect.x0, p.y - rect.y0);
    var x := if First(q.x, w, width) / scale != q.x / outScale then First(q.x, w, width) else Second(q.x, w, width);
    var y := if First(q.y, h, height) / scale != q.y / outScale then First(q.y, h, height) else Second(q.y, h, height);
    d := Rect(x, y, x + 1, y + 1);
    MixesInside(q.x, w, width, x);
    MixesInside(q.y, h, height, y);
    if !OwnBlock(q.x, w, width, scale, outScale) {
      TexelMissed(scale, outScale, q.x, x);
    } else {
      TexelMissed(scale, outScale, q.y, y);
    }
  }

  /** Where a shown pixel does, one dirty texel of some window is a pixel too few. */
  lemma ScaledWitness(w: nat, h: nat, scale: Scale, outScale: Scale, rect: Rect, output: Rect)
    returns (s: Surface, c: Content, dirty: seq<Rect>)
    requires w > 0 && h > 0 && Proper(output) && !FitsOn(w, h, scale, outScale, rect, output)
    requires rect.x1 == rect.x0 + CeilDiv(w, scale) * outScale && rect.y1 == rect.y0 + CeilDiv(h, scale) * outScale
    ensures Fitted(s, w, h, scale, outScale) && s.rect == rect && HonestCommit(s, c, dirty)
    ensures !Lossless(Window(s.id), s, Commit(c, dirty), outScale, output)
  {
    var p :| Contains(output, p) && Contains(rect, p) && !FitsAt(w, h, scale, outScale, rect, p);
    var d, q := OtherTexel(w, h, scale, outScale, rect, p);
    s := Plain(rect, Black(w, h), scale);
    c := Content(OneTexel(w, h, d.x0, d.y0), false);
    dirty := [d];
    OneTexelHonest(s, w, h, c, d);
    OneRect(d, scale, outScale, rect.x0, rect.y0, q);
    assert p == Point(q.x + rect.x0, q.y + rect.y0);
    OneTexelUnlike(rect, w, h, scale, d, ScaledRects([d], scale, outScale, rect.x0, rect.y0), output,
                   rect.x1 - rect.x0, rect.y1 - rect.y0, q);
    OneTexelMissed(s, w, h, c, d, outScale, output);
  }

  lemma OneTexelHonest(s: Surface, w: nat, h: nat, c: Content, d: Rect)
    requires Proper(d) && Within(d, Rect(0, 0, w, h)) && d.x1 == d.x0 + 1 && d.y1 == d.y0 + 1
    requires s == Plain(s.rect, Black(w, h), s.scale) && c == Content(OneTexel(w, h, d.x0, d.y0), false)
    ensures HonestCommit(s, c, [d])
  {
    OneListed(d, w, h);
    OneDiffers(w, h, d.x0, d.y0);
  }

  lemma OneTexelUnlike(rect: Rect, w: nat, h: nat, scale: Scale, d: Rect, rects: seq<Rect>, output: Rect, width: nat,
                       height: nat, q: Point)
    requires w > 0 && h > 0 && width > 0 && height > 0 && d.x1 == d.x0 + 1 && d.y1 == d.y0 + 1
    requires rect.x1 == rect.x0 + width && rect.y1 == rect.y0 + height && MixesIn(q, d, w, h, width, height)
    requires Contains(Rect(0, 0, width, height), q) && Contains(output, Point(q.x + rect.x0, q.y + rect.y0))
    requires !Covered(rects, Point(q.x + rect.x0, q.y + rect.y0))
    ensures !AlikeOutside(Window(0), Plain(rect, Black(w, h), scale), Plain(rect, OneTexel(w, h, d.x0, d.y0), scale),
                          rects, output)
  {
    OneTexelShows(rect, w, h, scale, d, width, height, q);
    DifferentNotAlike(Plain(rect, Black(w, h), scale), Plain(rect, OneTexel(w, h, d.x0, d.y0), scale), rects, output,
                      Point(q.x + rect.x0, q.y + rect.y0));
  }

  lemma OneTexelMissed(s: Surface, w: nat, h: nat, c: Content, d: Rect, outScale: Scale, output: Rect)
    requires Proper(output) && InQuadrant(d) && Proper(d) && Within(d, Rect(0, 0, w, h))
    requires s == Plain(s.rect, Black(w, h), s.scale) && c == Content(OneTexel(w, h, d.x0, d.y0), false)
    requires Fitted(s, w, h, s.scale, outScale) && HonestCommit(s, c, [d])
    requires !AlikeOutside(Window(0), s, Plain(s.rect, OneTexel(w, h, d.x0, d.y0), s.scale),
                           ScaledRects([d], s.scale, outScale, s.rect.x0, s.rect.y0), output)
    ensures !Lossless(Window(s.id), s, Commit(c, [d]), outScale, output)
  {
    OneListed(d, w, h);
    LosslessIs(Window(0), s, Commit(c, [d]), outScale, output);
    ScaledAfter(s, w, h, c, [d], outScale, output);
  }

  lemma OneRect(d: Rect, scale: Scale, outScale: Scale, x: int, y: int, q: Point)
    requires InQuadrant(d)
    ensures Covered(ScaledRects([d], scale, outScale, x, y), Point(q.x + x, q.y + y)) <==>
            Contains(ScaledRect(d, scale, outScale), q)
  {
    var rects := ScaledRects([d], scale, outScale, x, y);
    assert InQuadrant([d][0]) && rects[0] == Shifted(ScaledRect(d, scale, outScale), x, y);
  }

  /** Whatever a window of this size shows at this place and an honest client
      declares, no pixel is lost. */
  ghost predicate HonestIsSafe(w: nat, h: nat, scale: Scale, outScale: Scale, rect: Rect, output: Rect)
    requires Proper(output)
  {
    forall s: Surface, c: Content, dirty: seq<Rect> ::
      Fitted(s, w, h, scale, outScale) && s.rect == rect && HonestCommit(s, c, dirty)
      ==> Lossless(Window(s.id), s, Commit(c, dirty), outScale, output)
  }

  /** Damage of a window drawn at an integer scale, also one partly off the output, is
      enough exactly when its sizes fit where it is shown. */
  lemma HonestExactly(w: nat, h: nat, scale: Scale, outScale: Scale, rect: Rect, output: Rect)
    requires w > 0 && h > 0 && Proper(output)
    requires rect.x1 == rect.x0 + CeilDiv(w, scale) * outScale && rect.y1 == rect.y0 + CeilDiv(h, scale) * outScale
    ensures HonestIsSafe(w, h, scale, outScale, rect, output) <==> FitsOn(w, h, scale, outScale, rect, output)
  {
    if FitsOn(w, h, scale, outScale, rect, output) {
      forall s: Surface, c: Content, dirty: seq<Rect> |
        Fitted(s, w, h, scale, outScale) && s.rect == rect && HonestCommit(s, c, dirty)
        ensures Lossless(Window(s.id), s, Commit(c, dirty), outScale, output)
      {
        ScaledSafe(s, w, h, c, dirty, outScale, output);
      }
    } else {
      var s, c, dirty := ScaledWitness(w, h, scale, outScale, rect, output);
    }
  }

  /** For a window wholly on the output: exactly when its sizes fit along both axes. */
  lemma HonestOnOutput(w: nat, h: nat, scale: Scale, outScale: Scale, rect: Rect, output: Rect)
    requires w > 0 && h > 0 && Proper(output) && Within(rect, output)
    requires rect.x1 == rect.x0 + CeilDiv(w, scale) * outScale && rect.y1 == rect.y0 + CeilDiv(h, scale) * outScale
    ensures HonestIsSafe(w, h, scale, outScale, rect, output) <==>
            AxisFits(w, scale, outScale) && AxisFits(h, scale, outScale)
  {
    HonestExactly(w, h, scale, outScale, rect, output);
    FitsOnExactly(w, h, scale, outScale, rect, output);
  }
}
