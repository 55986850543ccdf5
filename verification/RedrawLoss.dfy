/** When damage declared for a redraw of the attached buffer, which is recorded at
    once and with origin and size rounded apart, is enough. */
module RedrawLoss {
  import opened Options
  import opened Geometry
  import opened Texture
  import opened Scene
  import opened Scaled
  import opened AtOnce
  import opened Requests
  import opened RequestLoss
  import opened DirtyLoss

  /** Only declared texels were redrawn. */
  ghost predicate HonestRedraw(s: Surface, texels: (int, int) -> Colour, dirty: seq<Rect>) {
    SameOutside(s.buffer, s.buffer.(texels := texels), dirty)
  }

  lemma DeclaredHas(s: Surface, dirty: seq<Rect>, declared: seq<Rect>, outScale: Scale, k: nat, p: Point)
    requires k < |dirty| && !Covered(DeclaredRects(s, dirty, declared, outScale), p)
    ensures !Contains(RectAtOnce(dirty[k], s.scale, outScale), Inside(s, p))
  {
    var rects := DeclaredRects(s, dirty, declared, outScale);
    assert rects[k] == Shifted(RectAtOnce(dirty[k], s.scale, outScale), s.rect.x0, s.rect.y0);
    assert !Contains(rects[k], p);
  }

  /** A surface with this buffer, drawn over this rectangle, in place or stretched. */
  predicate Shown(s: Surface, w: nat, h: nat, scale: Scale, rect: Rect) {
    s.hasBuffer && s.viewport.src.None? && s.buffer.w == w && s.buffer.h == h && s.scale == scale && s.rect == rect
  }

  predicate EdgesAt(w: nat, h: nat, scale: Scale, outScale: Scale, rect: Rect, p: Point)
    requires w > 0 && h > 0 && Contains(rect, p)
  {
    && OwnEdges(p.x - rect.x0, w, rect.x1 - rect.x0, scale, outScale)
    && OwnEdges(p.y - rect.y0, h, rect.y1 - rect.y0, scale, outScale)
  }

  /** Every shown pixel mixes, along both axes, only texels of its own logical pixel,
      and of those only the last unless it is the first logical pixel. */
  ghost predicate EdgesOn(w: nat, h: nat, scale: Scale, outScale: Scale, rect: Rect, output: Rect)
    requires w > 0 && h > 0
  {
    forall p :: Contains(output, p) && Contains(rect, p) ==> EdgesAt(w, h, scale, outScale, rect, p)
  }

  /** For a window of whole logical pixels wholly on the output that is exactly when,
      along both axes, there is only one or nothing is scaled. */
  lemma EdgesOnExactly(w: nat, h: nat, scale: Scale, outScale: Scale, rect: Rect, output: Rect)
    requires w > 0 && h > 0 && Within(rect, output)
    requires rect.x1 == rect.x0 + CeilDiv(w, scale) * outScale && rect.y1 == rect.y0 + CeilDiv(h, scale) * outScale
    ensures EdgesOn(w, h, scale, outScale, rect, output) <==>
            AtOnceFits(w, scale, outScale) && AtOnceFits(h, scale, outScale)
  {
    WidthPositive(w, scale, outScale);
    WidthPositive(h, scale, outScale);
    var width, height := rect.x1 - rect.x0, rect.y1 - rect.y0;
    OwnEdgesExactly(w, scale, outScale, width);
    OwnEdgesExactly(h, scale, outScale, height);
    if EdgesOn(w, h, scale, outScale, rect, output) {
      forall o | 0 <= o < width
        ensures OwnEdges(o, w, width, scale, outScale)
      {
        assert EdgesAt(w, h, scale, outScale, rect, Point(rect.x0 + o, rect.y0));
      }
      forall o | 0 <= o < height
        ensures OwnEdges(o, h, height, scale, outScale)
      {
        assert EdgesAt(w, h, scale, outScale, rect, Point(rect.x0, rect.y0 + o));
      }
    }
  }

  lemma DeclaredMisses(s: Surface, w: nat, h: nat, dirty: seq<Rect>, declared: seq<Rect>, outScale: Scale, k: nat,
                       p: Point)
    requires w > 0 && h > 0 && k < |dirty| && Contains(s.rect, p) && EdgesAt(w, h, s.scale, outScale, s.rect, p)
    requires !Covered(DeclaredRects(s, dirty, declared, outScale), p)
    ensures !MixesIn(Inside(s, p), dirty[k], w, h, s.rect.x1 - s.rect.x0, s.rect.y1 - s.rect.y0)
  {
    var q, width, height := Inside(s, p), s.rect.x1 - s.rect.x0, s.rect.y1 - s.rect.y0;
    DeclaredHas(s, dirty, declared, outScale, k, p);
    if MixesIn(q, dirty[k], w, h, width, height) {
      EdgesHold(q.x, w, width, s.scale, outScale, dirty[k].x0, dirty[k].x1);
      EdgesHold(q.y, h, height, s.scale, outScale, dirty[k].y0, dirty[k].y1);
    }
  }

  lemma RedrawKept(s: Surface, s': Surface, w: nat, h: nat, dirty: seq<Rect>, declared: seq<Rect>, outScale: Scale,
                   p: Point)
    requires w > 0 && h > 0 && Shown(s, w, h, s.scale, s.rect) && Contains(s.rect, p)
    requires s' == s.(buffer := s'.buffer) && s'.buffer.w == w && s'.buffer.h == h
    requires SameOutside(s.buffer, s'.buffer, dirty)
    requires EdgesAt(w, h, s.scale, outScale, s.rect, p)
    requires !Covered(DeclaredRects(s, dirty, declared, outScale), p)
    ensures ColourAt(s, p) == ColourAt(s', p)
  {
    var width, height := s.rect.x1 - s.rect.x0, s.rect.y1 - s.rect.y0;
    forall k | 0 <= k < |dirty|
      ensures !MixesIn(Inside(s, p), dirty[k], w, h, width, height)
    {
      DeclaredMisses(s, w, h, dirty, declared, outScale, k, p);
    }
    ColourKept(s, s', dirty, p);
  }

  /** A redrawn window, stretched or not, loses no pixel to honest damage if its shown
      pixels mix only such texels. */
  lemma RedrawSafe(s: Surface, w: nat, h: nat, texels: (int, int) -> Colour, dirty: seq<Rect>, declared: seq<Rect>,
                   outScale: Scale, output: Rect)
    requires Proper(output) && w > 0 && h > 0 && Shown(s, w, h, s.scale, s.rect) && HonestRedraw(s, texels, dirty)
    requires EdgesOn(w, h, s.scale, outScale, s.rect, output)
    ensures Lossless(Window(s.id), s, Redraw(texels, dirty, declared), outScale, output)
  {
    var t, s' := Window(s.id), s.(buffer := s.buffer.(texels := texels));
    LosslessIs(t, s, Redraw(texels, dirty, declared), outScale, output);
    forall p | Contains(output, p) && !Covered(DeclaredRects(s, dirty, declared, outScale), p)
      ensures Alike(t, s, s', p)
    {
      if OnOutput(s, p) {
        RedrawKept(s, s', w, h, dirty, declared, outScale, p);
      }
      KeptAlike(t, s, s', p);
    }
  }

  // ---- when it is not enough -----------------------------------------------------------------------------

  /** At a pixel that mixes another texel: a dirty rectangle with that texel that
      does not damage the pixel. */
  lemma MissedAtOnce(w: nat, h: nat, scale: Scale, outScale: Scale, rect: Rect, p: Point)
    returns (c: Rect, d: Rect, q: Point)
    requires w > 0 && h > 0 && Contains(rect, p) && !EdgesAt(w, h, scale, outScale, rect, p)
    ensures q == Point(p.x - rect.x0, p.y - rect.y0)
    ensures Proper(c) && InQuadrant(c) && Within(c, Rect(0, 0, w, h)) && Within(d, c) && d.x1 == d.x0 + 1
    ensures d.y1 == d.y0 + 1
    ensures MixesIn(q, d, w, h, rect.x1 - rect.x0, rect.y1 - rect.y0) && !Contains(RectAtOnce(c, scale, outScale), q)
  {
    var width, height := rect.x1 - rect.x0, rect.y1 - rect.y0;
    q := Point(p.x - rect.x0, p.y - rect.y0);
    if !OwnEdges(q.x, w, width, scale, outScale) {
      var from, x := EdgesWitness(q.x, w, width, scale, outScale);
      var y := First(q.y, h, height);
      c, d := Rect(from, y, x + 1, y + 1), Rect(x, y, x + 1, y + 1);
    } else {
      var from, y := EdgesWitness(q.y, h, height, scale, outScale);
      var x := First(q.x, w, width);
      c, d := Rect(x, from, x + 1, y + 1), Rect(x, y, x + 1, y + 1);
    }
  }

  lemma OneDeclared(s: Surface, c: Rect, outScale: Scale, q: Point)
    requires !Contains(RectAtOnce(c, s.scale, outScale), q)
    ensures !Covered(DeclaredRects(s, [c], [], outScale), Point(q.x + s.rect.x0, q.y + s.rect.y0))
  {
    var rects := DeclaredRects(s, [c], [], outScale);
    assert |rects| == 1 && rects[0] == Shifted(RectAtOnce(c, s.scale, outScale), s.rect.x0, s.rect.y0);
  }

  lemma OneHonest(w: nat, h: nat, c: Rect, d: Rect)
    requires Within(d, c) && d.x1 == d.x0 + 1 && d.y1 == d.y0 + 1
    ensures SameOutside(Black(w, h), OneTexel(w, h, d.x0, d.y0), [c])
  {
    forall i, j | 0 <= i < w && 0 <= j < h && Black(w, h).texels(i, j) != OneTexel(w, h, d.x0, d.y0).texels(i, j)
      ensures Covered([c], Point(i, j))
    {
      assert Contains([c][0], Point(i, j));
    }
  }

  lemma RedrawWitness(w: nat, h: nat, scale: Scale, outScale: Scale, rect: Rect, output: Rect)
    returns (s: Surface, texels: (int, int) -> Colour, dirty: seq<Rect>)
    requires w > 0 && h > 0 && Proper(output) && !EdgesOn(w, h, scale, outScale, rect, output)
    ensures Shown(s, w, h, scale, rect) && HonestRedraw(s, texels, dirty) && InBuffer(dirty, w, h)
    ensures !Lossless(Window(s.id), s, Redraw(texels, dirty, []), outScale, output)
  {
    var p :| Contains(output, p) && Contains(rect, p) && !EdgesAt(w, h, scale, outScale, rect, p);
    var c, d, q := MissedAtOnce(w, h, scale, outScale, rect, p);
    s := Plain(rect, Black(w, h), scale);
    texels, dirty := OneTexel(w, h, d.x0, d.y0).texels, [c];
    OneHonest(w, h, c, d);
    OneDeclared(s, c, outScale, q);
    assert p == Point(q.x + rect.x0, q.y + rect.y0);
    OneTexelUnlike(rect, w, h, scale, d, DeclaredRects(s, [c], [], outScale), output,
                   rect.x1 - rect.x0, rect.y1 - rect.y0, q);
    LosslessIs(Window(0), s, Redraw(texels, dirty, []), outScale, output);
  }

  /** Whatever a window with this buffer shows over this rectangle, an honest redraw
      loses no pixel. */
  ghost predicate RedrawIsSafe(w: nat, h: nat, scale: Scale, outScale: Scale, rect: Rect, output: Rect)
    requires Proper(output)
  {
    forall s: Surface, texels: (int, int) -> Colour, dirty: seq<Rect> ::
      Shown(s, w, h, scale, rect) && HonestRedraw(s, texels, dirty)
      ==> Lossless(Window(s.id), s, Redraw(texels, dirty, []), outScale, output)
  }

  /** Damage of a redraw, of a window anywhere, fullscreen or not, is enough exactly
      when its shown pixels mix only such texels. */
  lemma RedrawExactly(w: nat, h: nat, scale: Scale, outScale: Scale, rect: Rect, output: Rect)
    requires w > 0 && h > 0 && Proper(output)
    ensures RedrawIsSafe(w, h, scale, outScale, rect, output) <==> EdgesOn(w, h, scale, outScale, rect, output)
  {
    if EdgesOn(w, h, scale, outScale, rect, output) {
      forall s: Surface, texels: (int, int) -> Colour, dirty: seq<Rect> |
        Shown(s, w, h, scale, rect) && HonestRedraw(s, texels, dirty)
        ensures Lossless(Window(s.id), s, Redraw(texels, dirty, []), outScale, output)
      {
        RedrawSafe(s, w, h, texels, dirty, [], outScale, output);
      }
    } else {
      var s, texels, dirty := RedrawWitness(w, h, scale, outScale, rect, output);
    }
  }

  /** For a window of whole logical pixels wholly on the output: exactly when along both
      axes there is only one, or neither buffer nor output is scaled. */
  lemma RedrawOnOutput(w: nat, h: nat, scale: Scale, outScale: Scale, rect: Rect, output: Rect)
    requires w > 0 && h > 0 && Proper(output) && Within(rect, output)
    requires rect.x1 == rect.x0 + CeilDiv(w, scale) * outScale && rect.y1 == rect.y0 + CeilDiv(h, scale) * outScale
    ensures RedrawIsSafe(w, h, scale, outScale, rect, output) <==>
            AtOnceFits(w, scale, outScale) && AtOnceFits(h, scale, outScale)
  {
    RedrawExactly(w, h, scale, outScale, rect, output);
    EdgesOnExactly(w, h, scale, outScale, rect, output);
  }
}
