/** When the damage recorded for a request is enough: for every kind of request
    the exact condition under which no pixel is lost in any surroundings. */
module RequestLoss {
  import opened Options
  import opened Geometry
  import opened Texture
  import opened Scene
  import opened ZOrder
  import opened Stretch
  import opened Scaled
  import opened SceneChange
  import opened Requests

  /** No output pixel outside the recorded damage comes to look different, whatever
      else is on screen. */
  ghost predicate Lossless(t: Target, s: Surface, r: Request, outScale: Scale, output: Rect)
    requires Proper(output)
  {
    NeverLoses(t, s, After(s, r, outScale, output), Recorded(t, s, r, outScale, output), output)
  }

  lemma LosslessIs(t: Target, s: Surface, r: Request, outScale: Scale, output: Rect)
    requires Proper(output) && (t.Window? ==> t.id == s.id)
    ensures Lossless(t, s, r, outScale, output) <==>
            AlikeOutside(t, s, After(s, r, outScale, output), Recorded(t, s, r, outScale, output), output)
  {
    LosesExactly(t, s, After(s, r, outScale, output), Recorded(t, s, r, outScale, output), output);
  }

  // ---- requests that record nothing --------------------------------------------------------------------

  /** A changed opaque region goes unrecorded.  That is harmless exactly when it does
      not decide about blending or every shown pixel hides what is below anyway. */
  lemma OpaqueExactly(s: Surface, blends: bool, outScale: Scale, output: Rect)
    requires Proper(output)
    ensures Lossless(Window(s.id), s, SetOpaque(blends), outScale, output) <==>
            || blends == s.blends
            || forall p, c :: Contains(output, p) && Hits(s, p) ==> s.blend(ColourAt(s, p), c) == ColourAt(s, p)
  {
    var t, s' := Window(s.id), s.(blends := blends);
    LosslessIs(t, s, SetOpaque(blends), outScale, output);
    assert forall p :: !Covered([], p);
    if blends == s.blends {
      assert s' == s;
    } else {
      forall p
        ensures Alike(t, s, s', p) <==> forall c :: Hits(s, p) ==> s.blend(ColourAt(s, p), c) == ColourAt(s, p)
      {
        OpaqueAlike(s, blends, p);
      }
    }
  }

  lemma OpaqueAlike(s: Surface, blends: bool, p: Point)
    requires blends != s.blends
    ensures Alike(Window(s.id), s, s.(blends := blends), p) <==>
            forall c :: Hits(s, p) ==> s.blend(ColourAt(s, p), c) == ColourAt(s, p)
  {
    var t, s' := Window(s.id), s.(blends := blends);
    ColourIsSample(s, p);
    ColourIsSample(s', p);
    assert SpotOf(s', p) == SpotOf(s, p);
    forall c
      ensures Below(t, c)
      ensures (Over(s, p, c) == Over(s', p, c) <==> (Hits(s, p) ==> s.blend(ColourAt(s, p), c) == ColourAt(s, p)))
    {
    }
  }

  /** Two unblended windows draw alike at a pixel exactly when both miss it or both
      show the same colour. */
  lemma UnblendedAlike(t: Target, s: Surface, s': Surface, p: Point)
    requires t.Window? && !s.blends && !s'.blends
    ensures Alike(t, s, s', p) <==>
            (Hits(s, p) <==> Hits(s', p)) && (Hits(s, p) ==> ColourAt(s, p) == ColourAt(s', p))
  {
    if Hits(s, p) != Hits(s', p) {
      var c := (if Hits(s, p) then ColourAt(s, p) else ColourAt(s', p)) + 1;
      assert Below(t, c) && Over(s, p, c) != Over(s', p, c);
    }
    if Hits(s, p) && Hits(s', p) {
      assert Below(t, BLACK);
    }
  }

  // ---- requests that record only the new rectangle -----------------------------------------------------

  /** What a layer draws over is left as it was. */
  ghost predicate Invisible(t: Target, s: Surface, p: Point) {
    forall c :: Below(t, c) ==> Over(Drawn(t, s), p, c) == c
  }

  lemma WholeCovers(s: Surface, p: Point)
    ensures Covered(Whole(s), p) <==> OnOutput(s, p)
  {
    if OnOutput(s, p) {
      assert Contains(Whole(s)[0], p);
    }
  }

  /** Damaging only the new rectangle is enough exactly when, at the pixels given up,
      the old content did not show. */
  lemma NewOnlyExactly(t: Target, s: Surface, s': Surface, output: Rect)
    ensures AlikeOutside(t, s, s', Whole(s'), output) <==>
            forall p :: Contains(output, p) && !OnOutput(s', p) ==> Invisible(t, s, p)
  {
    forall p | Contains(output, p)
      ensures Covered(Whole(s'), p) <==> OnOutput(s', p)
      ensures !OnOutput(s', p) ==> (Alike(t, s, s', p) <==> Invisible(t, s, p))
    {
      WholeCovers(s', p);
      assert !OnOutput(s', p) ==> forall c :: Over(Drawn(t, s'), p, c) == c;
    }
  }

  /** A buffer commit without declared damage, or on the cursor, the drag icon or
      the lock surface. */
  lemma CommitExactly(t: Target, s: Surface, c: Content, dirty: seq<Rect>, outScale: Scale, output: Rect)
    requires Proper(output) && (t.Window? ==> t.id == s.id) && !(t.Window? && Preserved(s, c, dirty))
    ensures Lossless(t, s, Commit(c, dirty), outScale, output) <==>
            forall p :: Contains(output, p) && !OnOutput(After(s, Commit(c, dirty), outScale, output), p) ==> Invisible(t, s, p)
  {
    LosslessIs(t, s, Commit(c, dirty), outScale, output);
    NewOnlyExactly(t, s, After(s, Commit(c, dirty), outScale, output), output);
  }

  /** For an unblended window: exactly when no shown part of the old rectangle lies
      outside the new one. */
  lemma ShrinkExactly(s: Surface, c: Content, dirty: seq<Rect>, outScale: Scale, output: Rect)
    requires Proper(output) && !s.blends && !Preserved(s, c, dirty)
    ensures var s' := After(s, Commit(c, dirty), outScale, output);
            Lossless(Window(s.id), s, Commit(c, dirty), outScale, output) <==> StillCovers(s, s', output)
  {
    var t, s' := Window(s.id), After(s, Commit(c, dirty), outScale, output);
    CommitExactly(t, s, c, dirty, outScale, output);
    VacatedNone(s, s', output);
    forall p ensures Invisible(t, s, p) <==> !Hits(s, p) {
      if Hits(s, p) {
        assert Below(t, ColourAt(s, p) + 1);
      }
    }
    assert Vacated(s, s', output) == iset{} <==> forall p :: p !in Vacated(s, s', output);
  }

  /** The new size alone is damaged when a window leaves fullscreen: exactly enough
      when, at the output's corner or at its new place, it still covers the output. */
  lemma WindowedExactly(s: Surface, x: int, y: int, outScale: Scale, output: Rect)
    requires Proper(output) && s.role == Toplevel && !s.minimized && s.fills && s.hasBuffer && !s.blends
    requires s.rect == output
    ensures Lossless(Window(s.id), s, Windowed(x, y), outScale, output) <==>
            forall p :: Contains(output, p) ==> Covered(Recorded(Window(s.id), s, Windowed(x, y), outScale, output), p)
  {
    var t, s' := Window(s.id), After(s, Windowed(x, y), outScale, output);
    var rects := Recorded(t, s, Windowed(x, y), outScale, output);
    LosslessIs(t, s, Windowed(x, y), outScale, output);
    var first := rects[..|rects| - |Whole(s')|];
    assert rects == first + Whole(s');
    forall p | Contains(output, p) && Alike(t, s, s', p)
      ensures Covered(rects, p)
    {
      AlikeCovered(t, s, s', first, p);
    }
  }

  /** A pixel that an unblended window showed and still shows is damaged with it. */
  lemma AlikeCovered(t: Target, s: Surface, s': Surface, first: seq<Rect>, p: Point)
    requires t.Window? && !s.blends && !s'.blends && Hits(s, p) && Alike(t, s, s', p)
    ensures Covered(first + Whole(s'), p)
  {
    UnblendedAlike(t, s, s', p);
    WholeCovers(s', p);
    CoveredConcat(first, Whole(s'), p);
  }

  /** In particular, at the output's corner: exactly when it is as large as the output. */
  lemma WindowedAtCorner(s: Surface, outScale: Scale, output: Rect)
    requires Proper(output) && s.role == Toplevel && !s.minimized && s.fills && s.hasBuffer && !s.blends
    requires s.rect == output
    ensures Lossless(Window(s.id), s, Windowed(output.x0, output.y0), outScale, output) <==>
            output.x1 - output.x0 <= DisplayWidth(s) * outScale && output.y1 - output.y0 <= DisplayHeight(s) * outScale
  {
    var s' := After(s, Windowed(output.x0, output.y0), outScale, output);
    var rects := Recorded(Window(s.id), s, Windowed(output.x0, output.y0), outScale, output);
    WindowedExactly(s, output.x0, output.y0, outScale, output);
    AtCornerRecorded(s, outScale, output);
    forall p ensures Covered(rects, p) <==> OnOutput(s', p) {
      WholeCovers(s', p);
      CoveredConcat(Whole(s'), Whole(s'), p);
    }
    CornerCovers(s', output, DisplayWidth(s) * outScale, DisplayHeight(s) * outScale);
  }

  lemma AtCornerRecorded(s: Surface, outScale: Scale, output: Rect)
    requires Proper(output) && s.role == Toplevel && s.fills
    ensures var s' := After(s, Windowed(output.x0, output.y0), outScale, output);
            && s' == s.(fills := false, rect := Rect(output.x0, output.y0, output.x0 + DisplayWidth(s) * outScale,
                                                      output.y0 + DisplayHeight(s) * outScale))
            && Recorded(Window(s.id), s, Windowed(output.x0, output.y0), outScale, output) == Whole(s') + Whole(s')
  {
    var s' := After(s, Windowed(output.x0, output.y0), outScale, output);
    assert Shifted(s'.rect, 0, 0) == s'.rect;
  }

  lemma CornerCovers(s: Surface, output: Rect, w: int, h: int)
    requires Proper(output) && s.hasBuffer && s.rect == Rect(output.x0, output.y0, output.x0 + w, output.y0 + h)
    ensures (forall p :: Contains(output, p) ==> OnOutput(s, p)) <==>
            output.x1 - output.x0 <= w && output.y1 - output.y0 <= h
  {
    assert Contains(output, Point(output.x1 - 1, output.y1 - 1));
  }

  // ---- requests that record enough ---------------------------------------------------------------------

  /** A changed buffer scale damages the old and the new rectangle of a window. */
  lemma RescaleSafe(s: Surface, scale: Scale, blends: bool, outScale: Scale, output: Rect)
    requires Proper(output)
    ensures Lossless(Window(s.id), s, SetScale(scale, blends), outScale, output)
  {
    var t, s' := Window(s.id), After(s, SetScale(scale, blends), outScale, output);
    LosslessIs(t, s, SetScale(scale, blends), outScale, output);
    forall p | !Covered(Whole(s) + Whole(s'), p)
      ensures Alike(t, s, s', p)
    {
      CoveredConcat(Whole(s), Whole(s'), p);
      WholeCovers(s, p);
      WholeCovers(s', p);
    }
  }

  /** Losing its buffer damages what a surface covered, except for the lock surface:
      there it is harmless exactly when it was black all over the output. */
  lemma DetachExactly(t: Target, s: Surface, outScale: Scale, output: Rect)
    requires Proper(output) && (t.Window? ==> t.id == s.id)
    ensures Lossless(t, s, Detach, outScale, output) <==>
            t.TheLock? ==> forall p :: Contains(output, p) && OnOutput(s, p) ==> ColourAt(s, p) == BLACK
  {
    var s' := s.(hasBuffer := false);
    LosslessIs(t, s, Detach, outScale, output);
    forall p
      ensures t.TheLock? ==> (Alike(t, s, s', p) <==> (OnOutput(s, p) ==> ColourAt(s, p) == BLACK))
      ensures !t.TheLock? && !Covered(Whole(s), p) ==> Alike(t, s, s', p)
    {
      DetachAlike(t, s, p);
    }
    assert forall p :: !Covered([], p);
  }

  lemma DetachAlike(t: Target, s: Surface, p: Point)
    ensures var s' := s.(hasBuffer := false);
            && (t.TheLock? ==> (Alike(t, s, s', p) <==> (OnOutput(s, p) ==> ColourAt(s, p) == BLACK)))
            && (!t.TheLock? && !Covered(Whole(s), p) ==> Alike(t, s, s', p))
  {
    WholeCovers(s, p);
    DrawnColour(t, s, p);
    assert !OnOutput(Drawn(t, s.(hasBuffer := false)), p);
    assert t.TheLock? ==> Below(t, BLACK);
  }

  /** Going fullscreen damages the output. */
  lemma FullscreenSafe(s: Surface, outScale: Scale, output: Rect)
    requires Proper(output) && s.hasBuffer
    ensures Lossless(Window(s.id), s, Fullscreen, outScale, output)
  {
    var t, s' := Window(s.id), After(s, Fullscreen, outScale, output);
    LosslessIs(t, s, Fullscreen, outScale, output);
    forall p | Contains(output, p) && !Covered(Whole(s'), p)
      ensures Alike(t, s, s', p)
    {
      WholeCovers(s', p);
    }
  }
}
