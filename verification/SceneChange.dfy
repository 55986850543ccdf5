/** Which pixels a window operation can change: only those on the surface it
    touches, before or after.  This is why damaging that surface is enough. */
module SceneChange {
  import opened Options
  import opened Geometry
  import opened Scene
  import opened ZOrder
  import opened Damage
  import opened FrameLog

  /** Outside the damage, two scenes repaint alike. */
  ghost predicate ChangeDamaged(a: Scene, b: Scene, damage: seq<Rect>, output: Rect, missed: iset<Point>) {
    forall p :: Tracked(output, missed, p) && !Covered(damage, p) ==> FullRepaint(a, p) == FullRepaint(b, p)
  }

  lemma PendingAfter(shown: Image, a: Scene, b: Scene, was: seq<Rect>, now: seq<Rect>, output: Rect, missed: iset<Point>)
    requires PendingTrue(shown, a, was, output, missed) && Grows(was, now)
    requires ChangeDamaged(a, b, now, output, missed)
    ensures PendingTrue(shown, b, now, output, missed)
  {
  }

  /** The damage holds every output pixel of a surface. */
  ghost predicate SurfaceDamaged(s: Surface, damage: seq<Rect>, output: Rect) {
    forall p :: Contains(output, p) && OnOutput(s, p) ==> Covered(damage, p)
  }

  lemma WindowsDecide(a: Scene, ws: seq<Surface>, p: Point)
    requires Paint(a.windows, p) == Paint(ws, p)
    ensures FullRepaint(a, p) == FullRepaint(a.(windows := ws), p)
  {
    var b := a.(windows := ws);
    if a.locked {
      assert Layers(a) == Layers(b);
    } else {
      PaintAbove(a.windows, ws, Overlays(a), p);
    }
  }

  lemma PaintRemoved(ws: seq<Surface>, i: nat, p: Point)
    requires i < |ws| && !Hits(ws[i], p)
    ensures Paint(ws, p) == Paint(RemoveAt(ws, i), p)
  {
    assert ws == ws[..i] + [ws[i]] + ws[i + 1..];
    PaintWithout(ws[..i], ws[i], ws[i + 1..], p);
  }

  lemma PaintInserted(ws: seq<Surface>, at: nat, s: Surface, p: Point)
    requires at <= |ws| && !Hits(s, p)
    ensures Paint(InsertAt(ws, at, s), p) == Paint(ws, p)
  {
    PaintWithout(ws[..at], s, ws[at..], p);
    assert ws == ws[..at] + ws[at..];
  }

  lemma PaintReplaced(ws: seq<Surface>, i: nat, s: Surface, p: Point)
    requires i < |ws| && !Hits(ws[i], p) && !Hits(s, p)
    ensures Paint(ws[i := s], p) == Paint(ws, p)
  {
    PaintRemoved(ws, i, p);
    PaintRemoved(ws[i := s], i, p);
    assert RemoveAt(ws[i := s], i) == RemoveAt(ws, i);
  }

  // ---- one lemma for each kind of change ---------------------------------------------

  lemma RaiseChanges(a: Scene, i: nat, damage: seq<Rect>, output: Rect, missed: iset<Point>)
    requires i < |a.windows| && SurfaceDamaged(a.windows[i], damage, output)
    ensures ChangeDamaged(a, a.(windows := Raised(a.windows, i)), damage, output, missed)
    ensures ChangeDamaged(a, a.(windows := Lowered(a.windows, i)), damage, output, missed)
    ensures ChangeDamaged(a, a.(windows := RemoveAt(a.windows, i)), damage, output, missed)
  {
    var ws, rest := a.windows, RemoveAt(a.windows, i);
    forall p | Tracked(output, missed, p) && !Covered(damage, p)
      ensures FullRepaint(a, p) == FullRepaint(a.(windows := Raised(ws, i)), p)
      ensures FullRepaint(a, p) == FullRepaint(a.(windows := Lowered(ws, i)), p)
      ensures FullRepaint(a, p) == FullRepaint(a.(windows := rest), p)
    {
      assert !Hits(ws[i], p);
      PaintRemoved(ws, i, p);
      PaintInserted(rest, EndOfBand(rest, Band(ws[i])), ws[i], p);
      PaintInserted(rest, StartOfBand(rest, Band(ws[i])), ws[i], p);
      WindowsDecide(a, Raised(ws, i), p);
      WindowsDecide(a, Lowered(ws, i), p);
      WindowsDecide(a, rest, p);
    }
  }

  lemma MapChanges(a: Scene, at: nat, s: Surface, damage: seq<Rect>, output: Rect, missed: iset<Point>)
    requires at <= |a.windows| && SurfaceDamaged(s, damage, output)
    ensures ChangeDamaged(a, a.(windows := InsertAt(a.windows, at, s)), damage, output, missed)
  {
    forall p | Tracked(output, missed, p) && !Covered(damage, p)
      ensures FullRepaint(a, p) == FullRepaint(a.(windows := InsertAt(a.windows, at, s)), p)
    {
      PaintInserted(a.windows, at, s, p);
      WindowsDecide(a, InsertAt(a.windows, at, s), p);
    }
  }

  /** Pixels a surface leaves: shown before, outside its new rectangle. */
  ghost function Vacated(s: Surface, s': Surface, output: Rect): iset<Point> {
    iset p | Contains(output, p) && Hits(s, p) && !OnOutput(s', p)
  }

  lemma ReplaceChanges(a: Scene, i: nat, s: Surface, damage: seq<Rect>, output: Rect, missed: iset<Point>)
    requires i < |a.windows| && SurfaceDamaged(s, damage, output)
    requires forall p :: p in Vacated(a.windows[i], s, output) && !Covered(damage, p) ==> p in missed
    ensures ChangeDamaged(a, a.(windows := a.windows[i := s]), damage, output, missed)
  {
    forall p | Tracked(output, missed, p) && !Covered(damage, p)
      ensures FullRepaint(a, p) == FullRepaint(a.(windows := a.windows[i := s]), p)
    {
      assert p !in Vacated(a.windows[i], s, output);
      PaintReplaced(a.windows, i, s, p);
      WindowsDecide(a, a.windows[i := s], p);
    }
  }

  ghost predicate OptionalDamaged(s: Option<Surface>, damage: seq<Rect>, output: Rect) {
    s.Some? ==> SurfaceDamaged(s.value, damage, output)
  }

  lemma PaintOptional(below: seq<Surface>, s: Option<Surface>, above: seq<Surface>, p: Point)
    requires s.Some? ==> !Hits(s.value, p)
    ensures Paint(below + (Optional(s) + above), p) == Paint(below + above, p)
  {
    match s
    case None =>
      assert Optional(s) + above == above;
    case Some(v) =>
      PaintWithout(below, v, above, p);
      assert below + (Optional(s) + above) == below + [v] + above;
  }

  lemma OverlayChanges(a: Scene, icon: Option<Surface>, cursor: Option<Surface>, damage: seq<Rect>, output: Rect,
                       missed: iset<Point>)
    requires icon == a.icon || (OptionalDamaged(a.icon, damage, output) && OptionalDamaged(icon, damage, output))
    requires cursor == a.cursor || (OptionalDamaged(a.cursor, damage, output) && OptionalDamaged(cursor, damage, output))
    ensures ChangeDamaged(a, a.(icon := icon, cursor := cursor), damage, output, missed)
  {
    var mid := a.(icon := icon);
    var b := mid.(cursor := cursor);
    forall p | Tracked(output, missed, p) && !Covered(damage, p)
      ensures FullRepaint(a, p) == FullRepaint(b, p)
    {
      if icon != a.icon {
        IconIrrelevant(a, p);
        IconIrrelevant(mid, p);
        assert a.(icon := None) == mid.(icon := None);
      }
      if cursor != a.cursor {
        CursorIrrelevant(mid, p);
        CursorIrrelevant(b, p);
        assert mid.(cursor := None) == b.(cursor := None);
      }
    }
  }

  lemma IconIrrelevant(a: Scene, p: Point)
    requires a.icon.Some? ==> !OnOutput(a.icon.value, p)
    ensures FullRepaint(a, p) == FullRepaint(a.(icon := None), p)
  {
    var b := a.(icon := None);
    var c := Optional(Overlay(a.cursor));
    if a.locked {
      assert Layers(a) == Layers(b);
    } else {
      PaintOptional(Body(a), Overlay(a.icon), c, p);
      assert Layers(a) == Body(a) + (Optional(Overlay(a.icon)) + c);
      assert Layers(b) == Body(a) + c;
    }
  }

  lemma CursorIrrelevant(a: Scene, p: Point)
    requires a.cursor.Some? ==> !OnOutput(a.cursor.value, p)
    ensures FullRepaint(a, p) == FullRepaint(a.(cursor := None), p)
  {
    var b := a.(cursor := None);
    var below := Layers(b);
    PaintOptional(below, Overlay(a.cursor), [], p);
    assert Layers(a) == below + (Optional(Overlay(a.cursor)) + []);
    assert below + [] == below;
  }

  /** Every shown output pixel of the old rectangle lies in the new one. */
  predicate StillCovers(s: Surface, s': Surface, output: Rect) {
    || Iconified(s) || OutputRect(s).None? || Intersection(OutputRect(s).value, output).None?
    || (OutputRect(s').Some? && Within(Intersection(OutputRect(s).value, output).value, OutputRect(s').value))
  }

  /** Nothing is vacated exactly when the new rectangle still covers the old one. */
  lemma VacatedNone(s: Surface, s': Surface, output: Rect)
    requires Proper(output)
    ensures Vacated(s, s', output) == iset{} <==> StillCovers(s, s', output)
  {
    if !Iconified(s) && OutputRect(s).Some? && Intersection(OutputRect(s).value, output).Some? {
      var shown := Intersection(OutputRect(s).value, output).value;
      assert forall p :: Contains(shown, p) <==> Contains(output, p) && Hits(s, p);
      var a, b := Point(shown.x0, shown.y0), Point(shown.x1 - 1, shown.y1 - 1);
      assert Contains(shown, a) && Contains(shown, b);
      if Vacated(s, s', output) == iset{} {
        assert a !in Vacated(s, s', output) && b !in Vacated(s, s', output);
      }
    } else {
      assert forall p :: !(Contains(output, p) && Hits(s, p));
    }
  }
}
