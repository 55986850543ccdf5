/** Requests whose recorded damage is enough, by conditions that can be read off the
    request, the surface and the output before it is made. */
module SafeRequests {
  import opened Options
  import opened Geometry
  import opened Texture
  import opened Scene
  import opened Scaled
  import opened SceneChange
  import opened Requests
  import opened RequestLoss
  import opened DirtyLoss
  import opened RedrawLoss
  import opened ViewportLoss

  ghost predicate SafeCommit(t: Target, s: Surface, c: Content, dirty: seq<Rect>, outScale: Scale, output: Rect) {
    var w, h := s.buffer.w, s.buffer.h;
    if t.Window? && Preserved(s, c, dirty) then
      && HonestCommit(s, c, dirty)
      && if s.fills then s.rect == output
         else Fitted(s, w, h, s.scale, outScale) && w > 0 && h > 0 && FitsOn(w, h, s.scale, outScale, s.rect, output)
    else
      StillCovers(Drawn(t, s), After(s, Commit(c, dirty), outScale, output), output)
  }

  ghost predicate SafeRedraw(t: Target, s: Surface,
                             texels: (int, int) -> Colour, dirty: seq<Rect>, declared: seq<Rect>, outScale: Scale, output: Rect) {
    var w, h := s.buffer.w, s.buffer.h;
    match t
    case Window(_) =>
      && HonestRedraw(s, texels, dirty) && Shown(s, w, h, s.scale, s.rect) && w > 0 && h > 0
      && EdgesOn(w, h, s.scale, outScale, s.rect, output)
    case TheLock => OutputRect(s).None?
    case _ => dirty + declared != []
  }

  ghost predicate Safe(t: Target, s: Surface, r: Request, outScale: Scale, output: Rect) {
    var s' := After(s, r, outScale, output);
    || s' == s
    || match r
       case Commit(c, dirty) => SafeCommit(t, s, c, dirty, outScale, output)
       case Redraw(texels, dirty, declared) => SafeRedraw(t, s, texels, dirty, declared, outScale, output)
       case SetOpaque(_) => !t.Window?
       case Detach => !t.TheLock?
       case SetViewport(_, blends) =>
         t.Window? && blends == s.blends && s'.rect == s.rect && SourceRect(s') == SourceRect(s)
       case SetScale(_, _) => t.Window?
       case Fullscreen => t.Window? && s.hasBuffer
       case Windowed(_, _) => t.Window? && s.hasBuffer && Proper(s'.rect) && Within(output, s'.rect)
  }

  lemma CommitSafe(t: Target, s: Surface, c: Content, dirty: seq<Rect>, outScale: Scale, output: Rect)
    requires Proper(output) && output.x0 == 0 && output.y0 == 0 && (t.Window? ==> t.id == s.id)
    requires SafeCommit(t, s, c, dirty, outScale, output)
    ensures Lossless(t, s, Commit(c, dirty), outScale, output)
  {
    if t.Window? && Preserved(s, c, dirty) {
      if s.fills {
        StretchedSafe(s, c, dirty, outScale, output);
      } else {
        ScaledSafe(s, s.buffer.w, s.buffer.h, c, dirty, outScale, output);
      }
    } else {
      var s' := After(s, Commit(c, dirty), outScale, output);
      CommitExactly(t, s, c, dirty, outScale, output);
      VacatedNone(Drawn(t, s), s', output);
      forall p | Contains(output, p) && !OnOutput(s', p)
        ensures Invisible(t, s, p)
      {
        assert p !in Vacated(Drawn(t, s), s', output);
      }
    }
  }

  lemma RedrawIsLossless(t: Target, s: Surface, texels: (int, int) -> Colour,
                         dirty: seq<Rect>, declared: seq<Rect>, outScale: Scale, output: Rect)
    requires Proper(output) && (t.Window? ==> t.id == s.id) && SafeRedraw(t, s, texels, dirty, declared, outScale, output)
    ensures Lossless(t, s, Redraw(texels, dirty, declared), outScale, output)
  {
    if t.Window? {
      RedrawSafe(s, s.buffer.w, s.buffer.h, texels, dirty, declared, outScale, output);
    } else {
      var r := Redraw(texels, dirty, declared);
      LosslessIs(t, s, r, outScale, output);
      forall p | Contains(output, p) && !Covered(Recorded(t, s, r, outScale, output), p)
        ensures Alike(t, s, After(s, r, outScale, output), p)
      {
        WholeCovers(s, p);
      }
    }
  }

  lemma WindowedSafe(s: Surface, x: int, y: int, outScale: Scale, output: Rect)
    requires Proper(output) && s.hasBuffer
    requires var s' := After(s, Windowed(x, y), outScale, output); Proper(s'.rect) && Within(output, s'.rect)
    ensures Lossless(Window(s.id), s, Windowed(x, y), outScale, output)
  {
    var t, s' := Window(s.id), After(s, Windowed(x, y), outScale, output);
    var rects := Recorded(t, s, Windowed(x, y), outScale, output);
    LosslessIs(t, s, Windowed(x, y), outScale, output);
    forall p | Contains(output, p)
      ensures Covered(rects, p)
    {
      WholeCovers(s', p);
      CoveredConcat(rects[..|rects| - |Whole(s')|], Whole(s'), p);
      assert rects == rects[..|rects| - |Whole(s')|] + Whole(s');
    }
  }

  /** A safe request loses no pixel, whatever else is on screen. */
  lemma SafeIsLossless(t: Target, s: Surface, r: Request, outScale: Scale, output: Rect)
    requires Proper(output) && output.x0 == 0 && output.y0 == 0 && (t.Window? ==> t.id == s.id)
    requires Safe(t, s, r, outScale, output)
    ensures Lossless(t, s, r, outScale, output)
  {
    var s' := After(s, r, outScale, output);
    LosslessIs(t, s, r, outScale, output);
    if s' != s {
      match r
      case Commit(c, dirty) => CommitSafe(t, s, c, dirty, outScale, output);
      case Redraw(texels, dirty, declared) => RedrawIsLossless(t, s, texels, dirty, declared, outScale, output);
      case SetOpaque(blends) => assert Drawn(t, s') == Drawn(t, s);
      case Detach => DetachExactly(t, s, outScale, output);
      case SetViewport(v, blends) => SameSizesSafe(s, v, blends, outScale, output);
      case SetScale(n, blends) => RescaleSafe(s, n, blends, outScale, output);
      case Fullscreen => FullscreenSafe(s, outScale, output);
      case Windowed(x, y) => WindowedSafe(s, x, y, outScale, output);
    }
  }
}
