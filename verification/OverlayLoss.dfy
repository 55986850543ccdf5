/** Changes of what is drawn above the windows, or in their place while the session
    is locked, that the compositor does not damage, or not wholly: the cursor during
    an interactive move or resize, its hand-over between compositor and app, the end
    of its surface, and a new lock surface.  When each is harmless. */
module OverlayLoss {
  import opened Options
  import opened Geometry
  import opened Texture
  import opened Scene
  import opened ZOrder
  import opened SceneChange
  import opened Requests
  import opened RequestLoss

  /** The scene with another cursor, drag icon or lock surface, or without. */
  function SetSlot(scene: Scene, t: Target, o: Option<Surface>): Scene
    requires !t.Window?
  {
    match t
    case TheCursor => scene.(cursor := o)
    case TheIcon => scene.(icon := o)
    case TheLock => scene.(lock := o)
  }

  function SlotLayer(t: Target, o: Option<Surface>): seq<Surface> {
    match o
    case None => []
    case Some(s) => [Drawn(t, s)]
  }

  /** A pixel after that layer. */
  function OverSlot(t: Target, o: Option<Surface>, p: Point, below: Colour): Colour {
    match o
    case None => below
    case Some(s) => Over(Drawn(t, s), p, below)
  }

  /** One in place of the other makes no difference at a pixel. */
  ghost predicate AlikeSlot(t: Target, o: Option<Surface>, o': Option<Surface>, p: Point) {
    forall c :: Below(t, c) ==> OverSlot(t, o, p, c) == OverSlot(t, o', p, c)
  }

  ghost predicate AlikeSlotOutside(t: Target, o: Option<Surface>, o': Option<Surface>, rects: seq<Rect>, output: Rect) {
    forall p :: Contains(output, p) && !Covered(rects, p) ==> AlikeSlot(t, o, o', p)
  }

  /** What is painted below and above the slot, or nothing if it is not painted. */
  function AroundSlot(a: Scene, t: Target): Option<(seq<Surface>, seq<Surface>)>
    requires !t.Window?
  {
    match t
    case TheCursor => Some((Layers(a.(cursor := None)), []))
    case TheIcon => if a.locked then None else Some((Body(a), Optional(Overlay(a.cursor))))
    case TheLock => if a.locked then Some(([], Overlays(a))) else None
  }

  lemma SlotLayers(a: Scene, t: Target, o: Option<Surface>)
    requires !t.Window?
    ensures AroundSlot(a, t).None? ==> Layers(SetSlot(a, t, o)) == Layers(a)
    ensures AroundSlot(a, t).Some? ==>
              var (below, above) := AroundSlot(a, t).value;
              Layers(SetSlot(a, t, o)) == below + SlotLayer(t, o) + above && (t.TheLock? ==> below == [])
  {
    var b := SetSlot(a, t, o);
    match t
    case TheCursor => assert Body(b) == Body(a.(cursor := None));
    case TheIcon => assert Body(b) == Body(a);
    case TheLock => assert Overlays(b) == Overlays(a);
  }

  lemma PaintSlot(below: seq<Surface>, t: Target, o: Option<Surface>, p: Point)
    ensures Paint(below + SlotLayer(t, o), p) == OverSlot(t, o, p, Paint(below, p))
  {
    if o.None? {
      assert below + SlotLayer(t, o) == below;
    } else {
      assert (below + SlotLayer(t, o))[..|below|] == below;
    }
  }

  /** Where the layers draw alike, the scenes look alike. */
  lemma SlotRepaint(a: Scene, t: Target, o: Option<Surface>, o': Option<Surface>, p: Point)
    requires !t.Window? && AlikeSlot(t, o, o', p)
    ensures FullRepaint(SetSlot(a, t, o), p) == FullRepaint(SetSlot(a, t, o'), p)
  {
    SlotLayers(a, t, o);
    SlotLayers(a, t, o');
    if AroundSlot(a, t).Some? {
      var (below, above) := AroundSlot(a, t).value;
      assert Below(t, Paint(below, p));
      PaintSlot(below, t, o, p);
      PaintSlot(below, t, o', p);
      PaintAbove(below + SlotLayer(t, o), below + SlotLayer(t, o'), above, p);
    }
  }

  // ---- in all surroundings ---------------------------------------------------------------------------

  /** In no surroundings does the change reach a pixel outside the rectangles. */
  ghost predicate SlotNeverLoses(t: Target, o: Option<Surface>, o': Option<Surface>, rects: seq<Rect>, output: Rect)
    requires !t.Window?
  {
    forall a: Scene, p :: (Stacked(a.windows) && |a.windows| <= MAX_SURFACES &&
                           p in Changed(SetSlot(a, t, o), SetSlot(a, t, o'), output)) ==> Covered(rects, p)
  }

  /** A scene with windows of which only a backdrop of one colour covers the pixel. */
  function Plainly(t: Target, over: seq<Surface>, output: Rect, c: Colour, id: nat): Scene {
    Scene(if t.TheLock? then [] else [Backdrop(id, output, c)] + over, None, None, t.TheLock?, None, 1)
  }

  lemma PlainlyShows(t: Target, over: seq<Surface>, output: Rect, c: Colour, id: nat, o: Option<Surface>, p: Point)
    requires !t.Window? && Below(t, c) && Contains(output, p)
    requires |over| <= 1 && forall s :: s in over ==> !Hits(s, p)
    ensures FullRepaint(SetSlot(Plainly(t, over, output, c, id), t, o), p) == OverSlot(t, o, p, c)
  {
    var a := Plainly(t, over, output, c, id);
    var back := Backdrop(id, output, c);
    BackdropPaints(id, output, c, p);
    SlotLayers(a, t, o);
    var below := if t.TheLock? then [] else [back] + over;
    assert Layers(SetSlot(a, t, o)) == below + SlotLayer(t, o) by {
      var (under, above) := AroundSlot(a, t).value;
      assert under == below && above == [];
    }
    assert Paint(below, p) == c by {
      if over == [] {
        assert [back] + over == [back];
      } else {
        assert ([back] + over)[..1] == [back];
      }
    }
    PaintSlot(below, t, o, p);
  }

  /** A change of the slot loses no pixel in any surroundings exactly when, outside
      the damage, both draw alike over every background. */
  lemma SlotLosesExactly(t: Target, o: Option<Surface>, o': Option<Surface>, rects: seq<Rect>, output: Rect)
    requires !t.Window?
    ensures SlotNeverLoses(t, o, o', rects, output) <==> AlikeSlotOutside(t, o, o', rects, output)
  {
    if AlikeSlotOutside(t, o, o', rects, output) {
      forall a: Scene, p |
        Stacked(a.windows) && |a.windows| <= MAX_SURFACES && p in Changed(SetSlot(a, t, o), SetSlot(a, t, o'), output)
        ensures Covered(rects, p)
      {
        if !Covered(rects, p) {
          SlotRepaint(a, t, o, o', p);
        }
      }
    }
    if SlotNeverLoses(t, o, o', rects, output) {
      forall p, c | Contains(output, p) && !Covered(rects, p) && Below(t, c)
        ensures OverSlot(t, o, p, c) == OverSlot(t, o', p, c)
      {
        var a := Plainly(t, [], output, c, 0);
        PlainlyShows(t, [], output, c, 0, o, p);
        PlainlyShows(t, [], output, c, 0, o', p);
        assert Stacked(a.windows);
      }
    }
  }

  /** What a layer hides nothing of. */
  lemma InvisibleIs(t: Target, s: Surface, p: Point)
    ensures AlikeSlot(t, None, Some(s), p) <==> Invisible(t, s, p)
    ensures AlikeSlot(t, Some(s), None, p) <==> Invisible(t, s, p)
  {
  }

  // ---- without any damage ------------------------------------------------------------------------------

  /** The cursor passes to the app or comes back, undamaged: harmless exactly when it
      does not show anywhere on the output. */
  lemma HandoverExactly(s: Surface, output: Rect)
    ensures SlotNeverLoses(TheCursor, Some(s), None, [], output) <==>
            forall p :: Contains(output, p) ==> Invisible(TheCursor, s, p)
    ensures SlotNeverLoses(TheCursor, None, Some(s), [], output) <==>
            forall p :: Contains(output, p) ==> Invisible(TheCursor, s, p)
  {
    SlotLosesExactly(TheCursor, Some(s), None, [], output);
    SlotLosesExactly(TheCursor, None, Some(s), [], output);
    forall p
      ensures AlikeSlot(TheCursor, None, Some(s), p) <==> Invisible(TheCursor, s, p)
      ensures AlikeSlot(TheCursor, Some(s), None, p) <==> Invisible(TheCursor, s, p)
    {
      InvisibleIs(TheCursor, s, p);
    }
    assert forall p :: !Covered([], p);
  }

  /** A surface that becomes the lock surface with its buffer already attached:
      harmless exactly when it is black all over the output. */
  lemma LockSurfaceExactly(s: Surface, output: Rect)
    ensures SlotNeverLoses(TheLock, None, Some(s), [], output) <==>
            forall p :: Contains(output, p) && OnOutput(s, p) ==> ColourAt(s, p) == BLACK
  {
    SlotLosesExactly(TheLock, None, Some(s), [], output);
    forall p
      ensures AlikeSlot(TheLock, None, Some(s), p) <==> (OnOutput(s, p) ==> ColourAt(s, p) == BLACK)
    {
      DrawnColour(TheLock, s, p);
      assert Below(TheLock, BLACK);
    }
    assert forall p :: !Covered([], p);
  }

  // ---- an interactive move or resize ---------------------------------------------------------------------

  /** A window goes from `s` to `s'` and the cursor from `o` to `o'` in one step. */
  function Dragged(a: Scene, s': Surface, o': Option<Surface>): Scene {
    SetSlot(PutAt(a, Window(s'.id), s'), TheCursor, o')
  }

  /** What such a step damages: the window, before and after. */
  function DragRects(s: Surface, s': Surface): seq<Rect> {
    Whole(s) + Whole(s')
  }

  lemma DragRectsHold(s: Surface, s': Surface, p: Point)
    ensures Covered(DragRects(s, s'), p) <==> OnOutput(s, p) || OnOutput(s', p)
  {
    CoveredConcat(Whole(s), Whole(s'), p);
    WholeCovers(s, p);
    WholeCovers(s', p);
  }

  ghost predicate DragNeverLoses(s: Surface, s': Surface, o: Option<Surface>, o': Option<Surface>, output: Rect) {
    forall a: Scene, p :: (Stacked(a.windows) && |a.windows| <= MAX_SURFACES && SurfaceAt(a, Window(s.id)) == Some(s) &&
                           a.cursor == o && p in Changed(a, Dragged(a, s', o'), output)) ==> Covered(DragRects(s, s'), p)
  }

  lemma DragRepaint(a: Scene, s: Surface, s': Surface, o: Option<Surface>, o': Option<Surface>, p: Point)
    requires SurfaceAt(a, Window(s.id)) == Some(s) && s'.id == s.id && a.cursor == o
    requires !Covered(DragRects(s, s'), p) && AlikeSlot(TheCursor, o, o', p)
    ensures FullRepaint(a, p) == FullRepaint(Dragged(a, s', o'), p)
  {
    var mid := PutAt(a, Window(s.id), s');
    DragRectsHold(s, s', p);
    AlikeRepaint(a, Window(s.id), s, s', p);
    SlotRepaint(mid, TheCursor, o, o', p);
    assert SetSlot(mid, TheCursor, o) == mid;
  }

  lemma DragScene(s: Surface, s': Surface, output: Rect, c: Colour, o: Option<Surface>)
    requires s'.id == s.id
    ensures var a := SetSlot(Plainly(TheCursor, [s], output, c, s.id + 1), TheCursor, o);
            && Stacked(a.windows) && |a.windows| <= MAX_SURFACES && SurfaceAt(a, Window(s.id)) == Some(s)
            && forall o' :: Dragged(a, s', o') == SetSlot(Plainly(TheCursor, [s'], output, c, s.id + 1), TheCursor, o')
  {
    var a := SetSlot(Plainly(TheCursor, [s], output, c, s.id + 1), TheCursor, o);
    assert a.windows[0].id != s.id && a.windows[1].id == s.id;
    assert a.windows[1 := s'] == [Backdrop(s.id + 1, output, c)] + [s'];
  }

  /** A step of an interactive move or resize loses no pixel in any surroundings
      exactly when, outside the two places of the window, the old and the new cursor
      draw alike. */
  lemma DragExactly(s: Surface, s': Surface, o: Option<Surface>, o': Option<Surface>, output: Rect)
    requires s'.id == s.id
    ensures DragNeverLoses(s, s', o, o', output) <==> AlikeSlotOutside(TheCursor, o, o', DragRects(s, s'), output)
  {
    var rects := DragRects(s, s');
    if AlikeSlotOutside(TheCursor, o, o', rects, output) {
      forall a: Scene, p |
        Stacked(a.windows) && |a.windows| <= MAX_SURFACES && SurfaceAt(a, Window(s.id)) == Some(s) &&
        a.cursor == o && p in Changed(a, Dragged(a, s', o'), output)
        ensures Covered(rects, p)
      {
        if !Covered(rects, p) {
          DragRepaint(a, s, s', o, o', p);
        }
      }
    }
    if DragNeverLoses(s, s', o, o', output) {
      forall p, c | Contains(output, p) && !Covered(rects, p) && Below(TheCursor, c)
        ensures OverSlot(TheCursor, o, p, c) == OverSlot(TheCursor, o', p, c)
      {
        DragRectsHold(s, s', p);
        DragScene(s, s', output, c, o);
        PlainlyShows(TheCursor, [s], output, c, s.id + 1, o, p);
        PlainlyShows(TheCursor, [s'], output, c, s.id + 1, o', p);
        var a := SetSlot(Plainly(TheCursor, [s], output, c, s.id + 1), TheCursor, o);
        assert p !in Changed(a, Dragged(a, s', o'), output);
      }
    }
  }

  /** For a cursor that moved clear of its old place: exactly when every output pixel
      of the two places outside the window's two places is one it does not show at. */
  lemma DragApart(s: Surface, s': Surface, k: Surface, k': Surface, output: Rect)
    requires s'.id == s.id && forall p :: !(OnOutput(k, p) && OnOutput(k', p))
    ensures DragNeverLoses(s, s', Some(k), Some(k'), output) <==>
            forall p :: Contains(output, p) && !Covered(DragRects(s, s'), p) ==>
                        Invisible(TheCursor, k, p) && Invisible(TheCursor, k', p)
  {
    DragExactly(s, s', Some(k), Some(k'), output);
    forall p
      ensures AlikeSlot(TheCursor, Some(k), Some(k'), p) <==> Invisible(TheCursor, k, p) && Invisible(TheCursor, k', p)
    {
      ApartAlike(k, k', p);
    }
  }

  lemma ApartAlike(k: Surface, k': Surface, p: Point)
    requires !(OnOutput(k, p) && OnOutput(k', p))
    ensures AlikeSlot(TheCursor, Some(k), Some(k'), p) <==> Invisible(TheCursor, k, p) && Invisible(TheCursor, k', p)
  {
    if OnOutput(k, p) {
      assert !OnOutput(Drawn(TheCursor, k'), p);
    } else {
      assert !OnOutput(Drawn(TheCursor, k), p);
    }
  }

  predicate IsAt(o: Option<Surface>, p: Point) {
    o.Some? && OnOutput(o.value, p)
  }

  /** What can be checked before the step: the app draws the cursor, or it stays, or
      both its places lie within the damaged ones as far as they are on the output. */
  ghost predicate CursorCovered(o: Option<Surface>, o': Option<Surface>, rects: seq<Rect>, output: Rect) {
    || o == o'
    || forall p :: Contains(output, p) && (IsAt(o, p) || IsAt(o', p)) ==> Covered(rects, p)
  }

  lemma CursorCoveredAlike(o: Option<Surface>, o': Option<Surface>, rects: seq<Rect>, output: Rect)
    requires CursorCovered(o, o', rects, output)
    ensures AlikeSlotOutside(TheCursor, o, o', rects, output)
  {
    forall p | Contains(output, p) && !Covered(rects, p)
      ensures AlikeSlot(TheCursor, o, o', p)
    {
      if o != o' {
        AwayAlike(o, o', p);
      }
    }
  }

  // ---- the end of the cursor's surface -------------------------------------------------------------------

  /** Its viewport is taken away before its place is damaged. */
  function GoneRects(s: Surface, outScale: Scale, output: Rect): seq<Rect> {
    Whole(Placed(s.(viewport := UNSET), outScale, output))
  }

  /** Harmless exactly when the cursor does not show outside the place it would have
      without its viewport. */
  lemma CursorGoneExactly(s: Surface, outScale: Scale, output: Rect)
    ensures SlotNeverLoses(TheCursor, Some(s), None, GoneRects(s, outScale, output), output) <==>
            forall p :: Contains(output, p) && !Covered(GoneRects(s, outScale, output), p) ==> Invisible(TheCursor, s, p)
  {
    SlotLosesExactly(TheCursor, Some(s), None, GoneRects(s, outScale, output), output);
    forall p ensures AlikeSlot(TheCursor, Some(s), None, p) <==> Invisible(TheCursor, s, p) {
      InvisibleIs(TheCursor, s, p);
    }
  }

  // ---- the pointer put elsewhere ---------------------------------------------------------------------------

  function WholeSlot(o: Option<Surface>): seq<Rect> {
    if o.Some? then Whole(o.value) else []
  }

  /** Releasing a locked pointer puts it where its client hinted: cursor and drag icon
      move, the cursor's two places are damaged. */
  function WarpRects(o: Option<Surface>, o': Option<Surface>): seq<Rect> {
    WholeSlot(o) + WholeSlot(o')
  }

  lemma WarpRectsHold(o: Option<Surface>, o': Option<Surface>, p: Point)
    ensures Covered(WarpRects(o, o'), p) <==> IsAt(o, p) || IsAt(o', p)
  {
    CoveredConcat(WholeSlot(o), WholeSlot(o'), p);
    if o.Some? {
      WholeCovers(o.value, p);
    }
    if o'.Some? {
      WholeCovers(o'.value, p);
    }
  }

  function Warped(a: Scene, o': Option<Surface>, i': Option<Surface>): Scene {
    SetSlot(SetSlot(a, TheCursor, o'), TheIcon, i')
  }

  ghost predicate WarpNeverLoses(o: Option<Surface>, o': Option<Surface>, i: Option<Surface>, i': Option<Surface>,
                                 output: Rect) {
    forall a: Scene, p :: (Stacked(a.windows) && |a.windows| <= MAX_SURFACES && a.cursor == o && a.icon == i &&
                           p in Changed(a, Warped(a, o', i'), output)) ==> Covered(WarpRects(o, o'), p)
  }

  lemma AwayAlike(o: Option<Surface>, o': Option<Surface>, p: Point)
    requires !IsAt(o, p) && !IsAt(o', p)
    ensures AlikeSlot(TheCursor, o, o', p)
  {
    assert o.Some? ==> !OnOutput(Drawn(TheCursor, o.value), p);
    assert o'.Some? ==> !OnOutput(Drawn(TheCursor, o'.value), p);
  }

  lemma WarpRepaint(a: Scene, o': Option<Surface>, i': Option<Surface>, p: Point)
    requires !Covered(WarpRects(a.cursor, o'), p) && AlikeSlot(TheIcon, a.icon, i', p)
    ensures FullRepaint(a, p) == FullRepaint(Warped(a, o', i'), p)
  {
    var mid := SetSlot(a, TheCursor, o');
    WarpRectsHold(a.cursor, o', p);
    AwayAlike(a.cursor, o', p);
    SlotRepaint(a, TheCursor, a.cursor, o', p);
    SlotRepaint(mid, TheIcon, a.icon, i', p);
    assert SetSlot(a, TheCursor, a.cursor) == a && SetSlot(mid, TheIcon, a.icon) == mid;
  }

  /** Under a cursor that is elsewhere, the drag icon is what is seen. */
  lemma IconShows(output: Rect, c: Colour, o: Option<Surface>, i: Option<Surface>, p: Point)
    requires Contains(output, p) && !IsAt(o, p)
    ensures FullRepaint(Warped(Plainly(TheIcon, [], output, c, 0), o, i), p) == OverSlot(TheIcon, i, p, c)
  {
    var a := Plainly(TheIcon, [], output, c, 0);
    var b := SetSlot(a, TheIcon, i);
    PlainlyShows(TheIcon, [], output, c, 0, i, p);
    AwayAlike(None, o, p);
    SlotRepaint(b, TheCursor, None, o, p);
    assert SetSlot(b, TheCursor, None) == b && SetSlot(b, TheCursor, o) == Warped(a, o, i);
  }

  lemma WarpSeen(o: Option<Surface>, o': Option<Surface>, i: Option<Surface>, i': Option<Surface>, output: Rect,
                 p: Point, c: Colour)
    requires WarpNeverLoses(o, o', i, i', output) && Contains(output, p) && !Covered(WarpRects(o, o'), p)
    ensures OverSlot(TheIcon, i, p, c) == OverSlot(TheIcon, i', p, c)
  {
    WarpRectsHold(o, o', p);
    IconShows(output, c, o, i, p);
    IconShows(output, c, o', i', p);
    var base := Plainly(TheIcon, [], output, c, 0);
    var a := Warped(base, o, i);
    assert Stacked(a.windows) && a.cursor == o && a.icon == i && Warped(a, o', i') == Warped(base, o', i');
    assert p !in Changed(a, Warped(a, o', i'), output);
  }

  /** That loses no pixel in any surroundings exactly when, outside the cursor's two
      places, the old and the new drag icon draw alike. */
  lemma WarpExactly(o: Option<Surface>, o': Option<Surface>, i: Option<Surface>, i': Option<Surface>, output: Rect)
    ensures WarpNeverLoses(o, o', i, i', output) <==> AlikeSlotOutside(TheIcon, i, i', WarpRects(o, o'), output)
  {
    var rects := WarpRects(o, o');
    if AlikeSlotOutside(TheIcon, i, i', rects, output) {
      forall a: Scene, p |
        Stacked(a.windows) && |a.windows| <= MAX_SURFACES && a.cursor == o && a.icon == i &&
        p in Changed(a, Warped(a, o', i'), output)
        ensures Covered(rects, p)
      {
        if !Covered(rects, p) {
          WarpRepaint(a, o', i', p);
        }
      }
    }
    if WarpNeverLoses(o, o', i, i', output) {
      forall p, c | Contains(output, p) && !Covered(rects, p) && Below(TheIcon, c)
        ensures OverSlot(TheIcon, i, p, c) == OverSlot(TheIcon, i', p, c)
      {
        WarpSeen(o, o', i, i', output, p, c);
      }
    }
  }
}
