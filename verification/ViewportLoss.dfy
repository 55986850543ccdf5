/** A changed viewport takes effect without damage: when that is harmless, read off
    the sizes and the part of the buffer that is sampled. */
module ViewportLoss {
  import opened Options
  import opened Geometry
  import opened Texture
  import opened Scene
  import opened Requests
  import opened RequestLoss

  /** Texels that differ and a filter that shows it. */
  lemma TellApart(a: Spot, b: Spot) returns (texels: (int, int) -> Colour, filter: Mix)
    requires a != b
    ensures SampleAt(texels, filter, a) != SampleAt(texels, filter, b)
  {
    if a.NoSpot? || b.NoSpot? {
      texels, filter := (i, j) => 0, (fx, fy, p, q, r, s) => 1;
    } else if a.fx != b.fx || a.fy != b.fy {
      texels, filter := (i, j) => 0, (fx, fy, p, q, r, s) => if fx == a.fx && fy == a.fy then 1 else 0;
    } else if a.x0 != b.x0 || a.y0 != b.y0 {
      texels, filter := (i, j) => if i == a.x0 && j == a.y0 then 1 else 0, (fx, fy, p, q, r, s) => p;
    } else {
      texels, filter := (i, j) => if i == a.x1 && j == a.y1 then 1 else 0, (fx, fy, p, q, r, s) => s;
    }
  }

  /** The same surface with other texels, another filter and another blending. */
  function Dressed(s: Surface, texels: (int, int) -> Colour, filter: Mix, blend: (Colour, Colour) -> Colour): Surface {
    s.(buffer := s.buffer.(texels := texels), filter := filter, blend := blend)
  }

  /** The window covers the same output pixels as before, is blended as before, and
      every shown pixel is sampled at the same spot. */
  ghost predicate SameSpots(s: Surface, s': Surface, output: Rect) {
    forall p :: Contains(output, p) ==>
                && (Hits(s, p) <==> Hits(s', p))
                && (Hits(s, p) ==> s.blends == s'.blends && SpotOf(s, p) == SpotOf(s', p))
  }

  ghost predicate ViewportIsSafe(s: Surface, v: Viewport, blends: bool, outScale: Scale, output: Rect)
    requires Proper(output)
  {
    forall texels, filter, blend ::
      Lossless(Window(s.id), Dressed(s, texels, filter, blend), SetViewport(v, blends), outScale, output)
  }

  lemma DressedAfter(s: Surface, r: Request, outScale: Scale, output: Rect, texels: (int, int) -> Colour, filter: Mix,
                     blend: (Colour, Colour) -> Colour)
    requires r.SetViewport?
    ensures After(Dressed(s, texels, filter, blend), r, outScale, output) ==
            Dressed(After(s, r, outScale, output), texels, filter, blend)
  {
  }

  /** A dressed surface covers and samples as before. */
  lemma DressedSpot(s: Surface, texels: (int, int) -> Colour, filter: Mix, blend: (Colour, Colour) -> Colour, p: Point)
    ensures var d := Dressed(s, texels, filter, blend);
            && (Hits(d, p) <==> Hits(s, p)) && d.blends == s.blends && d.blend == blend
            && ColourAt(d, p) == SampleAt(texels, filter, SpotOf(s, p))
  {
    ColourIsSample(Dressed(s, texels, filter, blend), p);
  }

  lemma SameSpotsAlike(s: Surface, s': Surface, output: Rect, p: Point, texels: (int, int) -> Colour, filter: Mix,
                       blend: (Colour, Colour) -> Colour)
    requires SameSpots(s, s', output) && Contains(output, p)
    ensures Alike(Window(s.id), Dressed(s, texels, filter, blend), Dressed(s', texels, filter, blend), p)
  {
    DressedSpot(s, texels, filter, blend, p);
    DressedSpot(s', texels, filter, blend, p);
  }

  /** Where the spots differ, some dress shows it. */
  lemma OtherSpots(s: Surface, s': Surface, p: Point)
    returns (texels: (int, int) -> Colour, filter: Mix, blend: (Colour, Colour) -> Colour)
    requires !((Hits(s, p) <==> Hits(s', p)) && (Hits(s, p) ==> s.blends == s'.blends && SpotOf(s, p) == SpotOf(s', p)))
    ensures !Alike(Window(s.id), Dressed(s, texels, filter, blend), Dressed(s', texels, filter, blend), p)
  {
    var t := Window(s.id);
    texels, filter, blend := (i, j) => 0, (fx, fy, a, b, c, d) => 0, (a, b) => a;
    if Hits(s, p) && Hits(s', p) && s.blends != s'.blends {
      blend := (a, b) => a + 1;
    } else if Hits(s, p) && Hits(s', p) {
      texels, filter := TellApart(SpotOf(s, p), SpotOf(s', p));
    }
    DressedSpot(s, texels, filter, blend, p);
    DressedSpot(s', texels, filter, blend, p);
    assert Below(t, 1);
  }

  /** Whatever the window shows and however it is blended, a changed viewport loses
      nothing exactly when every shown pixel stays at its spot. */
  lemma ViewportExactly(s: Surface, v: Viewport, blends: bool, outScale: Scale, output: Rect)
    requires Proper(output)
    ensures ViewportIsSafe(s, v, blends, outScale, output) <==>
            SameSpots(s, After(s, SetViewport(v, blends), outScale, output), output)
  {
    var t, r, s' := Window(s.id), SetViewport(v, blends), After(s, SetViewport(v, blends), outScale, output);
    assert forall p :: !Covered([], p);
    if SameSpots(s, s', output) {
      forall texels, filter, blend
        ensures Lossless(t, Dressed(s, texels, filter, blend), r, outScale, output)
      {
        DressedAfter(s, r, outScale, output, texels, filter, blend);
        LosslessIs(t, Dressed(s, texels, filter, blend), r, outScale, output);
        forall p | Contains(output, p)
          ensures Alike(t, Dressed(s, texels, filter, blend), Dressed(s', texels, filter, blend), p)
        {
          SameSpotsAlike(s, s', output, p, texels, filter, blend);
        }
      }
    } else {
      var p :| Contains(output, p) && !((Hits(s, p) <==> Hits(s', p)) &&
                                        (Hits(s, p) ==> s.blends == s'.blends && SpotOf(s, p) == SpotOf(s', p)));
      var texels, filter, blend := OtherSpots(s, s', p);
      DressedAfter(s, r, outScale, output, texels, filter, blend);
      LosslessIs(t, Dressed(s, texels, filter, blend), r, outScale, output);
    }
  }

  /** In particular nothing is lost while size, sampled part and blending stay. */
  lemma SameSizesSafe(s: Surface, v: Viewport, blends: bool, outScale: Scale, output: Rect)
    requires Proper(output) && blends == s.blends
    requires var s' := After(s, SetViewport(v, blends), outScale, output); s'.rect == s.rect && SourceRect(s') == SourceRect(s)
    ensures Lossless(Window(s.id), s, SetViewport(v, blends), outScale, output)
  {
    var s' := After(s, SetViewport(v, blends), outScale, output);
    assert SameSpots(s, s', output);
    ViewportExactly(s, v, blends, outScale, output);
    assert Dressed(s, s.buffer.texels, s.filter, s.blend) == s;
  }
}
