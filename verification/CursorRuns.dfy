/** Runs that end with a wrong screen because the cursor changed undamaged: a window
    dragged against the edge of the work area, and a cursor the app takes over. */
module CursorRuns {
  import opened Options
  import opened Geometry
  import opened Texture
  import opened Scene
  import opened Requests
  import opened RequestLoss
  import opened OverlayLoss
  import opened Events
  import opened Compositor
  import opened StaleScreen
  import OutputQueue

  /** A cursor of one pixel and one colour. */
  function Dot(x: int, y: int, colour: Colour): Surface {
    FlatWindow(1, 1, colour).(id := 1, rect := Rect(x, y, x + 1, y + 1))
  }

  /** A window in the corner under such a cursor. */
  function Desk(cursor: Option<Surface>): Scene {
    Scene([FlatWindow(1, 1, BLACK)], None, cursor, false, None, 1)
  }

  lemma DotIs(x: int, y: int, colour: Colour, p: Point)
    ensures OnOutput(Dot(x, y, colour), p) <==> p == Point(x, y)
    ensures p == Point(x, y) ==> ColourAt(Dot(x, y, colour), p) == colour
  {
    var s := Dot(x, y, colour);
    if p == Point(x, y) {
      assert ColourAt(s, p) == Sample(Flat(1, 1, colour), s.filter, 1, 1, 0, 0) == colour;
    }
  }

  /** Away from the window it is black but for the cursor. */
  lemma DeskShows(cursor: Option<Surface>, p: Point)
    requires !Contains(Rect(0, 0, 1, 1), p)
    ensures FullRepaint(Desk(cursor), p) == OverSlot(TheCursor, cursor, p, BLACK)
  {
    var a, w := Desk(cursor), FlatWindow(1, 1, BLACK);
    SlotLayers(a, TheCursor, cursor);
    assert SetSlot(a, TheCursor, cursor) == a;
    assert Layers(a.(cursor := None)) == [w] && [w][..0] == [];
    assert !Hits(w, p) && Paint([w], p) == BLACK;
    PaintSlot([w], TheCursor, cursor, p);
    assert Layers(a) == [w] + SlotLayer(TheCursor, cursor);
  }

  lemma DotShows(x: int, y: int, colour: Colour, p: Point)
    requires !Contains(Rect(0, 0, 1, 1), p)
    ensures FullRepaint(Desk(Some(Dot(x, y, colour))), p) == if p == Point(x, y) then colour else BLACK
  {
    DeskShows(Some(Dot(x, y, colour)), p);
    DotIs(x, y, colour, p);
    DrawnColour(TheCursor, Dot(x, y, colour), p);
  }

  /** The desk on screen, with its cursor at (1, 0). */
  method ShowDesk(w: nat, h: nat, colour: Colour) returns (c: Compositor)
    requires w > 0 && h > 0
    ensures fresh(c) && fresh(c.damage) && fresh(c.damage.rects) && fresh(c.damage.history)
    ensures fresh(c.queue) && fresh(c.queue.slots) && fresh(c.buffers)
    ensures Settled(c) && c.damage.Output() == Rect(0, 0, w, h) && c.queue.count == 1
    ensures c.scene == Desk(Some(Dot(1, 0, colour))) && c.LatestIn(0) && !c.AllOwned(false)
  {
    c := new Compositor(w, h, 1, 1);
    SetDesk(c, colour);
    assert !c.AllOwned(false) by {
      assert OutputQueue.Free(c.queue.slots[0]);
    }
    Present(c);
  }

  method SetDesk(c: Compositor, colour: Colour)
    requires c.Valid() && c.scene == Scene([], None, None, false, None, 1)
    modifies c`scene, c`missed, c.damage`valid, c.damage`coarse, c.damage`count, c.damage`bounds, c.damage.rects
    ensures c.Valid() && c.missed == old(c.missed) && c.scene == Desk(Some(Dot(1, 0, colour)))
  {
    c.Map(FlatWindow(1, 1, BLACK));
    c.SetCursor(Some(Dot(1, 0, colour)));
  }

  lemma DotMoves(colour: Colour)
    ensures MovedCursor(Some(Dot(1, 0, colour)), 2, 0) == Some(Dot(2, 0, colour))
  {
  }

  lemma WindowStays(a: Scene)
    requires a.windows == [FlatWindow(1, 1, BLACK)]
    ensures MoveScene(a, 0, 0, 0) == a && SurfaceAt(a, Window(0)) == Some(FlatWindow(1, 1, BLACK))
  {
    var win := FlatWindow(1, 1, BLACK);
    assert a.windows[0] == win && win.(rect := MovedRect(win.rect, 0, 0)) == win;
    assert a.windows[0 := win] == a.windows;
  }

  lemma DragOfDesk(colour: Colour, output: Rect)
    requires Proper(output)
    ensures var a, e := Desk(Some(Dot(1, 0, colour))), EvDrag(0, 0, 0, 2, 0);
            && Apply(a, output, e) == Desk(Some(Dot(2, 0, colour)))
            && AllWithin(Expected(a, output, e), Rect(0, 0, 1, 1))
  {
    var a, win := Desk(Some(Dot(1, 0, colour))), FlatWindow(1, 1, BLACK);
    WindowStays(a);
    DotMoves(colour);
    assert win.(rect := MovedRect(win.rect, 0, 0)) == win;
    assert Expected(a, output, EvDrag(0, 0, 0, 2, 0)) == DragRects(win, win);
    assert AllWithin(Whole(win), Rect(0, 0, 1, 1));
  }

  /** A step of a drag that the work area stops: the window stays where it is and only
      its own place is damaged, so the old cursor stays on screen and the new one is
      missing. */
  method ClampedDragStaysWrong(w: nat, h: nat, colour: Colour) returns (c: Compositor)
    requires w > 2 && h > 0 && colour != BLACK
    ensures c.Valid() && !c.damage.valid && c.scene == Desk(Some(Dot(2, 0, colour)))
    ensures c.presented(Point(1, 0)) != FullRepaint(c.scene, Point(1, 0)) == BLACK
    ensures c.presented(Point(2, 0)) != FullRepaint(c.scene, Point(2, 0)) == colour
  {
    c := ShowDesk(w, h, colour);
    DragOfDesk(colour, c.damage.Output());
    DotShows(1, 0, colour, Point(1, 0));
    DotShows(1, 0, colour, Point(2, 0));
    DotShows(2, 0, colour, Point(1, 0));
    DotShows(2, 0, colour, Point(2, 0));
    GiveUp(c, EvDrag(0, 0, 0, 2, 0), Rect(0, 0, 1, 1));
  }

  /** The app takes the cursor over: the one painted last stays on screen. */
  method HandoverStaysWrong(w: nat, h: nat, colour: Colour) returns (c: Compositor)
    requires w > 1 && h > 0 && colour != BLACK
    ensures c.Valid() && !c.damage.valid && c.scene == Desk(None)
    ensures c.presented(Point(1, 0)) != FullRepaint(c.scene, Point(1, 0)) == BLACK
  {
    c := ShowDesk(w, h, colour);
    DotShows(1, 0, colour, Point(1, 0));
    DeskShows(None, Point(1, 0));
    GiveUp(c, EvHandover(None), Rect(0, 0, 0, 0));
  }
}
