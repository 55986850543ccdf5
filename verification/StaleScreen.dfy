/** What the screen shows after a request and the repaint that follows it: exactly
    where it is right, and a run after which it is not. */
module StaleScreen {
  import opened Options
  import opened Geometry
  import opened Texture
  import opened Scene
  import opened ZOrder
  import opened Damage
  import opened FrameLog
  import opened Requests
  import opened RequestLoss
  import opened DirtyLoss
  import opened OverlayLoss
  import opened Events
  import opened Compositor
  import OutputQueue

  /** The screen shows the scene, through the swapchain, with nothing left to draw. */
  ghost predicate Settled(c: Compositor)
    reads c, c.damage, c.damage.rects, c.damage.history, c.queue, c.queue.slots, c.buffers
  {
    && c.Valid() && c.hasPresented && !c.directActive && c.damage.serial > 0 && !c.damage.valid
    && Shows(c.presented, c.scene, c.damage.Output(), iset{})
  }

  /** The screen was right before, and all that was painted is in `painted`. */
  lemma RightAgain(image: Image, frames: seq<Frame>, was: Scene, now: Scene, painted: seq<Rect>, output: Rect, p: Point)
    requires RightExactly(image, frames, now, painted, output) && Contains(output, p)
    requires |frames| > 0 && Shows(frames[|frames| - 1].image, was, output, iset{})
    ensures image(p) == FullRepaint(now, p) <==> Covered(painted, p) || FullRepaint(was, p) == FullRepaint(now, p)
  {
    assert Tracked(output, iset{}, p);
  }

  /** The damage holds the rectangles and stays within every box around them. */
  ghost predicate Notes(damage: seq<Rect>, rects: seq<Rect>, output: Rect) {
    Holds(damage, rects, output) && forall outer :: AllWithin(rects, outer) ==> AllWithin(damage, outer)
  }

  /** A frame is right exactly where it was painted or the scene stayed the same. */
  ghost predicate RightWhere(image: Image, was: Scene, now: Scene, painted: seq<Rect>, output: Rect) {
    forall p :: Contains(output, p) ==>
                (image(p) == FullRepaint(now, p) <==> Covered(painted, p) || FullRepaint(was, p) == FullRepaint(now, p))
  }

  /** The last frame shows this scene. */
  ghost predicate LastShows(c: Compositor, was: Scene)
    reads c, c.damage
  {
    && !c.directActive && |c.frames| > 0 && c.presented == c.frames[|c.frames| - 1].image
    && Shows(c.presented, was, c.damage.Output(), iset{})
  }

  method ActSettled(c: Compositor, e: Event)
    requires Settled(c) && Partly(e)
    modifies c`scene, c`missed, c.damage`valid, c.damage`coarse, c.damage`count, c.damage`bounds, c.damage.rects
    ensures c.Valid() && LastShows(c, old(c.scene)) && c.scene == Apply(old(c.scene), c.damage.Output(), e)
    ensures Notes(c.damage.List(), Expected(old(c.scene), c.damage.Output(), e), c.damage.Output())
  {
    ghost var rects := Expected(c.scene, c.damage.Output(), e);
    c.Act(e);
    NotedAfter(c.damage.valid, c.damage.bounds, old(c.damage.bounds), c.damage.List(), rects, c.damage.Output());
  }

  /** A list that started empty grew by no more than the rectangles. */
  lemma NotedAfter(valid: bool, bounds: Rect, was: Rect, list: seq<Rect>, rects: seq<Rect>, output: Rect)
    requires Holds(list, rects, output) && NoMoreThan(false, was, valid, bounds, rects)
    requires if valid then AllWithin(list, bounds) else list == []
    ensures Notes(list, rects, output)
  {
    forall outer | AllWithin(rects, outer)
      ensures AllWithin(list, outer)
    {
      if valid {
        forall k | 0 <= k < |list|
          ensures Within(list[k], outer)
        {
          assert Within(list[k], bounds) && Within(bounds, outer);
        }
      }
    }
  }

  method Repaint(c: Compositor, ghost was: Scene, rotate: bool, clients: set<nat>, seqno: nat) returns (outcome: Outcome)
    requires c.Valid() && LastShows(c, was)
    modifies c, c.damage, c.damage.rects, c.damage.history, c.queue, c.queue.slots, c.buffers
    ensures c.Valid() && c.damage.Output() == old(c.damage.Output()) && c.scene == old(c.scene)
    ensures !outcome.Direct? && (outcome.NoBuffer? ==> old(c.AllOwned(rotate))) && c.queue.count == old(c.queue.count)
    ensures !outcome.NoBuffer? ==> !c.damage.valid
    ensures outcome.Unchanged? ==> c.presented == old(c.presented) && old(c.damage.List()) == []
    ensures outcome.Published? ==>
              && RightWhere(c.presented, was, c.scene, c.damage.lastRects, c.damage.Output())
              && Grows(old(c.damage.List()), c.damage.lastRects)
              && (old(c.LatestIn(outcome.slot)) ==> c.damage.lastRects == old(c.damage.List()))
    ensures outcome.Published? ==> outcome.slot < c.queue.count
  {
    ghost var latest := c.frames;
    outcome := c.RecompositeNow(rotate, false, clients, seqno);
    if outcome.Published? {
      forall p | Contains(c.damage.Output(), p)
        ensures c.presented(p) == FullRepaint(c.scene, p) <==>
                Covered(c.damage.lastRects, p) || FullRepaint(was, p) == FullRepaint(c.scene, p)
      {
        RightAgain(c.presented, latest, was, c.scene, c.damage.lastRects, c.damage.Output(), p);
      }
    }
  }

  /** After such an event on a settled screen, a published frame is right exactly where
      it was painted or the event changed nothing, and all damage recorded for the
      event was painted. */
  method ActAndRepaint(c: Compositor, e: Event, rotate: bool, clients: set<nat>, seqno: nat) returns (outcome: Outcome)
    requires Settled(c) && Partly(e)
    modifies c, c.damage, c.damage.rects, c.damage.history, c.queue, c.queue.slots, c.buffers
    ensures c.Valid() && c.damage.Output() == old(c.damage.Output())
    ensures c.scene == Apply(old(c.scene), c.damage.Output(), e)
    ensures !outcome.Direct? && (outcome.NoBuffer? ==> old(c.AllOwned(rotate))) && c.queue.count == old(c.queue.count)
    ensures !outcome.NoBuffer? ==> !c.damage.valid
    ensures var rects, output := Expected(old(c.scene), c.damage.Output(), e), c.damage.Output();
            && (outcome.Published? ==>
                  && RightWhere(c.presented, old(c.scene), c.scene, c.damage.lastRects, output)
                  && Holds(c.damage.lastRects, rects, output)
                  && outcome.slot < c.queue.count
                  && (old(c.LatestIn(outcome.slot)) ==> Notes(c.damage.lastRects, rects, output)))
            && (outcome.Unchanged? ==> c.presented == old(c.presented) && Holds([], rects, output))
  {
    ghost var was := c.scene;
    ActSettled(c, e);
    outcome := Repaint(c, was, rotate, clients, seqno);
  }

  lemma NotesWhole(damage: seq<Rect>, s: Surface, output: Rect, p: Point)
    requires Notes(damage, Whole(s), output) && Contains(output, p)
    ensures Covered(damage, p) <==> OnOutput(s, p)
  {
    WholeCovers(s, p);
    var outer := if OutputRect(s).Some? then s.rect else Rect(0, 0, 0, 0);
    assert AllWithin(Whole(s), outer) && AllWithin(damage, outer);
    if Covered(damage, p) {
      var k :| 0 <= k < |damage| && Contains(damage[k], p);
      assert Within(damage[k], outer);
    }
  }

  /** An image is right exactly on a surface and where the scene stayed the same. */
  ghost predicate RightOn(image: Image, was: Scene, now: Scene, s: Surface, output: Rect) {
    forall p :: Contains(output, p) ==>
                (image(p) == FullRepaint(now, p) <==> OnOutput(s, p) || FullRepaint(was, p) == FullRepaint(now, p))
  }

  /** A buffer commit whose damage is the new rectangle, repainted into the buffer
      that holds the latest frame: the screen is right exactly on that rectangle and
      where old and new repaint agree, so every pixel given up that should have
      changed stays as it was. */
  method CommitAndRepaint(c: Compositor, t: Target, content: Content, dirty: seq<Rect>, rotate: bool, clients: set<nat>,
                          seqno: nat)
    returns (outcome: Outcome)
    requires Settled(c) && SurfaceAt(c.scene, t).Some?
    requires !(t.Window? && Preserved(SurfaceAt(c.scene, t).value, content, dirty))
    modifies c, c.damage, c.damage.rects, c.damage.history, c.queue, c.queue.slots, c.buffers
    ensures c.Valid() && c.damage.Output() == old(c.damage.Output())
    ensures c.scene == Asked(old(c.scene), t, Commit(content, dirty), c.damage.Output())
    ensures !outcome.Direct? && (outcome.NoBuffer? ==> old(c.AllOwned(rotate))) && c.queue.count == old(c.queue.count)
    ensures !outcome.NoBuffer? ==> !c.damage.valid
    ensures outcome.Published? ==> outcome.slot < c.queue.count
    ensures var s' := After(SurfaceAt(old(c.scene), t).value, Commit(content, dirty), old(c.scene).scale, c.damage.Output());
            outcome.Unchanged? || (outcome.Published? && old(c.LatestIn(outcome.slot))) ==>
              RightOn(c.presented, old(c.scene), c.scene, s', c.damage.Output())
  {
    ghost var was, shown := c.scene, c.presented;
    ghost var s' := After(SurfaceAt(c.scene, t).value, Commit(content, dirty), c.scene.scale, c.damage.Output());
    outcome := ActAndRepaint(c, EvRequest(t, Commit(content, dirty)), rotate, clients, seqno);
    if outcome.Unchanged? || (outcome.Published? && old(c.LatestIn(outcome.slot))) {
      forall p | Contains(c.damage.Output(), p)
        ensures c.presented(p) == FullRepaint(c.scene, p) <==>
                OnOutput(s', p) || FullRepaint(was, p) == FullRepaint(c.scene, p)
      {
        if outcome.Published? {
          NotesWhole(c.damage.lastRects, s', c.damage.Output(), p);
        } else {
          NothingExpected(s', c.damage.Output(), p);
          assert Tracked(c.damage.Output(), iset{}, p);
        }
      }
    }
  }

  lemma NothingExpected(s: Surface, output: Rect, p: Point)
    requires Holds([], Whole(s), output) && Contains(output, p)
    ensures !OnOutput(s, p)
  {
    WholeCovers(s, p);
    assert !Covered([], p);
  }

  // ---- a run that ends with a wrong screen ----------------------------------------------------------------

  /** A window of one colour. */
  function Flat(w: nat, h: nat, colour: Colour): Buffer {
    Buffer(w, h, (i, j) => colour, true)
  }

  function FlatWindow(w: nat, h: nat, colour: Colour): Surface {
    Plain(Rect(0, 0, w, h), Flat(w, h, colour), 1).(filter := (fx, fy, a, b, c, d) => a)
  }

  lemma FlatShows(w: nat, h: nat, colour: Colour, scale: Scale, p: Point)
    requires Contains(Rect(0, 0, w, h), p)
    ensures FullRepaint(Scene([FlatWindow(w, h, colour)], None, None, false, None, scale), p) == colour
  {
    var s := FlatWindow(w, h, colour);
    var scene := Scene([s], None, None, false, None, scale);
    assert Layers(scene) == [s] && [s][..0] == [];
    assert Hits(s, p);
    assert ColourAt(s, p) == Sample(Flat(w, h, colour), s.filter, w, h, p.x, p.y) == colour;
  }

  /** Where no window is, it is black. */
  lemma NothingShows(s: Surface, scale: Scale, p: Point)
    requires !OnOutput(s, p)
    ensures FullRepaint(Scene([s], None, None, false, None, scale), p) == BLACK
  {
    assert Layers(Scene([s], None, None, false, None, scale)) == [s] && [s][..1] == [s];
    PaintStep([s], 0, p);
    assert !Hits(s, p);
  }

  /** A window over the whole output is mapped and shown. */
  method ShowWindow(w: nat, h: nat, colour: Colour) returns (c: Compositor)
    requires w > 0 && h > 0
    ensures fresh(c) && fresh(c.damage) && fresh(c.damage.rects) && fresh(c.damage.history)
    ensures fresh(c.queue) && fresh(c.queue.slots) && fresh(c.buffers)
    ensures Settled(c) && c.damage.Output() == Rect(0, 0, w, h) && c.queue.count == 1
    ensures c.scene == Scene([FlatWindow(w, h, colour)], None, None, false, None, 1)
    ensures c.LatestIn(0) && !c.AllOwned(false)
  {
    c := new Compositor(w, h, 1, 1);
    c.Map(FlatWindow(w, h, colour));
    assert c.scene.windows == [FlatWindow(w, h, colour)];
    assert !c.AllOwned(false) by {
      assert OutputQueue.Free(c.queue.slots[0]);
    }
    Present(c);
  }

  /** The first repaint of a scene, into a single buffer. */
  method Present(c: Compositor)
    requires c.Valid() && !c.hasPresented && c.missed == iset{} && c.queue.count == 1 && !c.AllOwned(false)
    modifies c, c.damage, c.damage.rects, c.damage.history, c.queue, c.queue.slots, c.buffers
    ensures Settled(c) && c.damage.Output() == old(c.damage.Output()) && c.queue.count == 1
    ensures c.scene == old(c.scene) && c.LatestIn(0) && !c.AllOwned(false)
  {
    var outcome := c.RecompositeNow(false, false, {}, 0);
    assert outcome == Published(0);
    assert OutputQueue.Free(c.queue.slots[0]);
    assert Contains(c.damage.Output(), Point(0, 0)) && !Covered(c.damage.List(), Point(0, 0));
  }

  /** Two commits and two repaints after which the screen is wrong: a window of any
      colour but black over the whole output is replaced by one a column narrower. */
  method ShrinkStaysWrong(w: nat, h: nat, colour: Colour) returns (c: Compositor, p: Point)
    requires w > 1 && h > 0 && colour != BLACK
    ensures c.Valid() && !c.damage.valid && Contains(c.damage.Output(), p)
    ensures c.scene.windows == [FlatWindow(w - 1, h, colour)]
    ensures c.presented(p) != FullRepaint(c.scene, p) == BLACK
  {
    c := ShowWindow(w, h, colour);
    p := Point(w - 1, 0);
    Narrow(c, w, h, colour);
    assert Contains(Rect(0, 0, w, h), p);
  }

  function Narrower(w: nat, h: nat, colour: Colour): Content {
    Content(Flat(w, h, colour), false)
  }

  lemma NarrowAfter(w: nat, h: nat, colour: Colour, output: Rect)
    requires w > 1
    ensures After(FlatWindow(w, h, colour), Commit(Narrower(w - 1, h, colour), []), 1, output) ==
            FlatWindow(w - 1, h, colour)
    ensures !Preserved(FlatWindow(w, h, colour), Narrower(w - 1, h, colour), [])
  {
  }

  lemma NarrowScene(w: nat, h: nat, colour: Colour, output: Rect)
    requires w > 1
    ensures var scene := Scene([FlatWindow(w, h, colour)], None, None, false, None, 1);
            && SurfaceAt(scene, Window(0)) == Some(FlatWindow(w, h, colour))
            && Asked(scene, Window(0), Commit(Narrower(w - 1, h, colour), []), output)
               == Scene([FlatWindow(w - 1, h, colour)], None, None, false, None, 1)
  {
    NarrowAfter(w, h, colour, output);
    assert [FlatWindow(w, h, colour)][0 := FlatWindow(w - 1, h, colour)] == [FlatWindow(w - 1, h, colour)];
  }

  /** What stays wrong: changed, and outside a box around all recorded damage. */
  ghost predicate LeftWrong(image: Image, was: Scene, now: Scene, outer: Rect, output: Rect) {
    forall p :: Contains(output, p) && !Contains(outer, p) && FullRepaint(was, p) != FullRepaint(now, p) ==>
                image(p) != FullRepaint(now, p)
  }

  /** On a screen with one free buffer, every pixel that an event changes outside any
      box around the damage recorded for it is wrong after the repaint, with nothing
      left to draw. */
  method GiveUp(c: Compositor, e: Event, ghost outer: Rect)
    requires Settled(c) && Partly(e) && c.queue.count == 1 && c.LatestIn(0) && !c.AllOwned(false)
    requires AllWithin(Expected(c.scene, c.damage.Output(), e), outer)
    modifies c, c.damage, c.damage.rects, c.damage.history, c.queue, c.queue.slots, c.buffers
    ensures c.Valid() && !c.damage.valid && c.damage.Output() == old(c.damage.Output())
    ensures c.scene == Apply(old(c.scene), c.damage.Output(), e)
    ensures LeftWrong(c.presented, old(c.scene), c.scene, outer, c.damage.Output())
  {
    ghost var was := c.scene;
    var outcome := ActAndRepaint(c, e, false, {}, 0);
    if outcome.Published? {
      assert AllWithin(c.damage.lastRects, outer);
    } else {
      forall p | Contains(c.damage.Output(), p)
        ensures c.presented(p) == FullRepaint(was, p)
      {
        assert Tracked(c.damage.Output(), iset{}, p);
      }
    }
  }

  method Narrow(c: Compositor, w: nat, h: nat, colour: Colour)
    requires w > 1 && h > 0 && colour != BLACK
    requires Settled(c) && c.damage.Output() == Rect(0, 0, w, h) && c.queue.count == 1 && c.LatestIn(0)
    requires !c.AllOwned(false)
    requires c.scene == Scene([FlatWindow(w, h, colour)], None, None, false, None, 1)
    modifies c, c.damage, c.damage.rects, c.damage.history, c.queue, c.queue.slots, c.buffers
    ensures c.Valid() && !c.damage.valid && c.damage.Output() == Rect(0, 0, w, h)
    ensures c.scene.windows == [FlatWindow(w - 1, h, colour)]
    ensures c.presented(Point(w - 1, 0)) != FullRepaint(c.scene, Point(w - 1, 0)) == BLACK
  {
    var p := Point(w - 1, 0);
    FlatShows(w, h, colour, 1, p);
    NarrowAfter(w, h, colour, c.damage.Output());
    NarrowScene(w, h, colour, c.damage.Output());
    NothingShows(FlatWindow(w - 1, h, colour), 1, p);
    GiveUp(c, EvRequest(Window(0), Commit(Narrower(w - 1, h, colour), [])), Rect(0, 0, w - 1, h));
  }
}
