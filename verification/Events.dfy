/** Everything that happens to the session: how each event changes the scene, what
    it records as damage where that may be too little, and runs in which it never is. */
module Events {
  import opened Options
  import opened Geometry
  import opened Texture
  import opened Scene
  import opened ZOrder
  import opened FrameLog
  import opened Requests
  import opened RequestLoss
  import opened SafeRequests
  import opened OverlayLoss

  function MovedRect(r: Rect, x: int, y: int): Rect {
    Rect(x, y, x + (r.x1 - r.x0), y + (r.y1 - r.y0))
  }

  function UpdateWindow(scene: Scene, id: nat, f: Surface -> Surface): Scene {
    match IndexOf(scene.windows, id)
    case None => scene
    case Some(i) => scene.(windows := scene.windows[i := f(scene.windows[i])])
  }

  function LowerScene(scene: Scene, id: nat): Scene {
    match IndexOf(scene.windows, id)
    case None => scene
    case Some(i) => scene.(windows := Lowered(scene.windows, i))
  }

  function MapScene(scene: Scene, s: Surface): Scene {
    if IndexOf(scene.windows, s.id).Some? || |scene.windows| >= 64 then scene
    else scene.(windows := InsertAt(scene.windows, EndOfBand(scene.windows, Band(s)), s))
  }

  function UnmapScene(scene: Scene, id: nat): Scene {
    match IndexOf(scene.windows, id)
    case None => scene
    case Some(i) => scene.(windows := RemoveAt(scene.windows, i))
  }

  function MinimizeScene(scene: Scene, id: nat, minimized: bool): Scene {
    UpdateWindow(scene, id, (s: Surface) => if s.role == Toplevel then s.(minimized := minimized) else s)
  }

  function MoveScene(scene: Scene, id: nat, x: int, y: int): Scene {
    UpdateWindow(scene, id, (s: Surface) => s.(rect := MovedRect(s.rect, x, y)))
  }

  /** The scene after a request about one surface. */
  function Asked(scene: Scene, t: Target, r: Request, output: Rect): Scene {
    match SurfaceAt(scene, t)
    case None => scene
    case Some(s) => PutAt(scene, t, After(s, r, scene.scale, output))
  }

  /** Every surface at the place a new output scale gives it. */
  function Replaced(s: Option<Surface>, place: Surface -> Rect): Option<Surface> {
    match s
    case None => None
    case Some(v) => Some(v.(rect := place(v)))
  }

  function ReplacedAll(ws: seq<Surface>, place: Surface -> Rect): (r: seq<Surface>)
    ensures |r| == |ws| && forall k :: 0 <= k < |ws| ==> r[k] == ws[k].(rect := place(ws[k]))
  {
    seq(|ws|, k requires 0 <= k < |ws| => ws[k].(rect := place(ws[k])))
  }

  function RescaledScene(scene: Scene, scale: Scale, place: Surface -> Rect): Scene {
    Scene(ReplacedAll(scene.windows, place), Replaced(scene.icon, place), Replaced(scene.cursor, place),
          scene.locked, Replaced(scene.lock, place), scale)
  }

  /** The cursor at another place. */
  function MovedCursor(cursor: Option<Surface>, x: int, y: int): Option<Surface> {
    match cursor
    case None => None
    case Some(s) => Some(s.(rect := MovedRect(s.rect, x, y)))
  }

  // ---- events ----------------------------------------------------------------------------------------

  /** `EvMove` is any placement by request, `EvDrag` a step of an interactive move or
      resize, with the cursor, `EvWarp` the end of a pointer lock.  `EvHandover` is the cursor passing between compositor
      and app.  `EvLock` locks or unlocks, or ends the lock surface. */
  datatype Event =
    | EvRaise(id: nat)
    | EvLower(id: nat)
    | EvMap(s: Surface)
    | EvUnmap(id: nat)
    | EvMinimize(id: nat, minimized: bool)
    | EvMove(id: nat, x: int, y: int)
    | EvRequest(target: Target, request: Request)
    | EvDeclare(rects: seq<Rect>)
    | EvDrag(id: nat, x: int, y: int, cursorX: int, cursorY: int)
    | EvWarp(cursorX: int, cursorY: int, iconX: int, iconY: int)
    | EvCursor(cursor: Option<Surface>)
    | EvHandover(cursor: Option<Surface>)
    | EvCursorGone
    | EvIcon(icon: Option<Surface>)
    | EvLock(locked: bool, keeps: bool)
    | EvLockSurface(s: Surface)
    | EvScale(scale: Scale, place: Surface -> Rect)
    | EvRelease(index: nat, client: nat, seqno: nat)
    | EvDrop(client: nat)
    | EvRecover
    | EvRepaint(rotate: bool, direct: bool, clients: set<nat>, seqno: nat)

  function Apply(scene: Scene, output: Rect, e: Event): Scene {
    match e
    case EvRaise(id) => scene.(windows := RaiseTree(scene.windows, id, MAX_SURFACES))
    case EvLower(id) => LowerScene(scene, id)
    case EvMap(s) => MapScene(scene, s)
    case EvUnmap(id) => UnmapScene(scene, id)
    case EvMinimize(id, m) => MinimizeScene(scene, id, m)
    case EvMove(id, x, y) => MoveScene(scene, id, x, y)
    case EvRequest(t, r) => Asked(scene, t, r, output)
    case EvDrag(id, x, y, cx, cy) => MoveScene(scene, id, x, y).(cursor := MovedCursor(scene.cursor, cx, cy))
    case EvWarp(cx, cy, ix, iy) => Warped(scene, MovedCursor(scene.cursor, cx, cy), MovedCursor(scene.icon, ix, iy))
    case EvCursor(c) => scene.(cursor := c)
    case EvHandover(c) => scene.(cursor := c)
    case EvCursorGone => scene.(cursor := None)
    case EvIcon(i) => scene.(icon := i)
    case EvLock(locked, keeps) => scene.(locked := locked, lock := if keeps then scene.lock else None)
    case EvLockSurface(s) => if scene.locked && scene.lock.None? then scene.(lock := Some(s)) else scene
    case EvScale(scale, place) => RescaledScene(scene, scale, place)
    case _ => scene
  }

  function ApplyAll(scene: Scene, output: Rect, events: seq<Event>): Scene
    decreases |events|
  {
    if events == [] then scene else ApplyAll(Apply(scene, output, events[0]), output, events[1..])
  }

  /** Events that record damage for part of what they change only. */
  predicate Partly(e: Event) {
    e.EvRequest? || e.EvDrag? || e.EvWarp? || e.EvHandover? || e.EvCursorGone? || e.EvLockSurface?
  }

  /** What such an event records as damage in this scene. */
  function Expected(scene: Scene, output: Rect, e: Event): seq<Rect>
    requires Proper(output)
  {
    match e
    case EvRequest(t, r) =>
      (match SurfaceAt(scene, t)
       case None => []
       case Some(s) => Recorded(t, s, r, scene.scale, output))
    case EvDrag(id, x, y, _, _) =>
      (match SurfaceAt(scene, Window(id))
       case None => []
       case Some(s) => DragRects(s, s.(rect := MovedRect(s.rect, x, y))))
    case EvWarp(x, y, _, _) => WarpRects(scene.cursor, MovedCursor(scene.cursor, x, y))
    case EvCursorGone => if scene.cursor.Some? then GoneRects(scene.cursor.value, scene.scale, output) else []
    case _ => []
  }

  /** The damage holds the rectangles as far as they are on the output. */
  ghost predicate Holds(damage: seq<Rect>, rects: seq<Rect>, output: Rect) {
    forall p :: Contains(output, p) && Covered(rects, p) ==> Covered(damage, p)
  }

  /** The pixels an event changes without recording them. */
  ghost function LostBy(scene: Scene, output: Rect, e: Event): iset<Point>
    requires Proper(output)
  {
    if Partly(e) then Changed(scene, Apply(scene, output, e), output) - Painted(Expected(scene, output, e)) else iset{}
  }

  ghost function LostIn(scene: Scene, output: Rect, events: seq<Event>): iset<Point>
    requires Proper(output)
    decreases |events|
  {
    if events == [] then iset{}
    else LostBy(scene, output, events[0]) + LostIn(Apply(scene, output, events[0]), output, events[1..])
  }

  // ---- runs that lose nothing --------------------------------------------------------------------

  /** There is no drag icon, or it stays, or both its places lie within the damage. */
  ghost predicate IconCovered(i: Option<Surface>, i': Option<Surface>, rects: seq<Rect>, output: Rect) {
    CursorCovered(i, i', rects, output)
  }

  /** A condition that can be checked before the event. */
  ghost predicate SafeEvent(scene: Scene, output: Rect, e: Event)
    requires Proper(output)
  {
    match e
    case EvRequest(t, r) =>
      SurfaceAt(scene, t).Some? ==> Safe(t, SurfaceAt(scene, t).value, r, scene.scale, output)
    case EvDrag(_, _, _, x, y) =>
      CursorCovered(scene.cursor, MovedCursor(scene.cursor, x, y), Expected(scene, output, e), output)
    case EvWarp(_, _, x, y) => IconCovered(scene.icon, MovedCursor(scene.icon, x, y), Expected(scene, output, e), output)
    case EvHandover(c) => CursorCovered(scene.cursor, c, [], output)
    case EvCursorGone => CursorCovered(scene.cursor, None, Expected(scene, output, e), output)
    case EvLockSurface(s) => !scene.locked || OutputRect(s).None?
    case _ => true
  }

  ghost predicate SafeRun(scene: Scene, output: Rect, events: seq<Event>)
    requires Proper(output)
    decreases |events|
  {
    events != [] ==> SafeEvent(scene, output, events[0]) && SafeRun(Apply(scene, output, events[0]), output, events[1..])
  }

  lemma SafeRequestKeeps(scene: Scene, output: Rect, t: Target, r: Request, p: Point)
    requires Proper(output) && output.x0 == 0 && output.y0 == 0 && SafeEvent(scene, output, EvRequest(t, r))
    requires Contains(output, p) && !Covered(Expected(scene, output, EvRequest(t, r)), p)
    ensures FullRepaint(scene, p) == FullRepaint(Asked(scene, t, r, output), p)
  {
    if SurfaceAt(scene, t).Some? {
      var s := SurfaceAt(scene, t).value;
      SafeIsLossless(t, s, r, scene.scale, output);
      LosslessIs(t, s, r, scene.scale, output);
      AlikeRepaint(scene, t, s, After(s, r, scene.scale, output), p);
    }
  }

  lemma CoveredSlotKeeps(scene: Scene, o: Option<Surface>, rects: seq<Rect>, output: Rect, p: Point)
    requires CursorCovered(scene.cursor, o, rects, output) && Contains(output, p) && !Covered(rects, p)
    ensures FullRepaint(scene, p) == FullRepaint(scene.(cursor := o), p)
  {
    CursorCoveredAlike(scene.cursor, o, rects, output);
    SlotRepaint(scene, TheCursor, scene.cursor, o, p);
    assert SetSlot(scene, TheCursor, scene.cursor) == scene;
  }

  lemma SafeDragKeeps(scene: Scene, output: Rect, e: Event, p: Point)
    requires Proper(output) && e.EvDrag? && SafeEvent(scene, output, e)
    requires Contains(output, p) && !Covered(Expected(scene, output, e), p)
    ensures FullRepaint(scene, p) == FullRepaint(Apply(scene, output, e), p)
  {
    var o' := MovedCursor(scene.cursor, e.cursorX, e.cursorY);
    match SurfaceAt(scene, Window(e.id))
    case None => CoveredSlotKeeps(scene, o', [], output, p);
    case Some(s) =>
      var s' := s.(rect := MovedRect(s.rect, e.x, e.y));
      CursorCoveredAlike(scene.cursor, o', DragRects(s, s'), output);
      DragRepaint(scene, s, s', scene.cursor, o', p);
  }

  lemma SafeWarpKeeps(scene: Scene, output: Rect, e: Event, p: Point)
    requires Proper(output) && e.EvWarp? && SafeEvent(scene, output, e)
    requires Contains(output, p) && !Covered(Expected(scene, output, e), p)
    ensures FullRepaint(scene, p) == FullRepaint(Apply(scene, output, e), p)
  {
    var i' := MovedCursor(scene.icon, e.iconX, e.iconY);
    if scene.icon != i' {
      assert !OnOutput(Drawn(TheIcon, scene.icon.value), p) && !OnOutput(Drawn(TheIcon, i'.value), p);
    }
    WarpRepaint(scene, MovedCursor(scene.cursor, e.cursorX, e.cursorY), i', p);
  }

  lemma SafeLockKeeps(scene: Scene, output: Rect, s: Surface, p: Point)
    requires Proper(output) && SafeEvent(scene, output, EvLockSurface(s))
    ensures FullRepaint(scene, p) == FullRepaint(Apply(scene, output, EvLockSurface(s)), p)
  {
    if scene.locked && scene.lock.None? {
      assert !OnOutput(Drawn(TheLock, s), p);
      SlotRepaint(scene, TheLock, None, Some(s), p);
      assert SetSlot(scene, TheLock, None) == scene;
    }
  }

  /** A safe event gives up no pixel, in any scene. */
  lemma SafeLosesNothing(scene: Scene, output: Rect, e: Event)
    requires Proper(output) && output.x0 == 0 && output.y0 == 0 && SafeEvent(scene, output, e)
    ensures LostBy(scene, output, e) == iset{}
  {
    if Partly(e) {
      forall p | Contains(output, p) && !Covered(Expected(scene, output, e), p)
        ensures FullRepaint(scene, p) == FullRepaint(Apply(scene, output, e), p)
      {
        match e
        case EvRequest(t, r) => SafeRequestKeeps(scene, output, t, r, p);
        case EvDrag(_, _, _, _, _) => SafeDragKeeps(scene, output, e, p);
        case EvWarp(_, _, _, _) => SafeWarpKeeps(scene, output, e, p);
        case EvHandover(c) => CoveredSlotKeeps(scene, c, [], output, p);
        case EvCursorGone => CoveredSlotKeeps(scene, None, Expected(scene, output, e), output, p);
        case EvLockSurface(s) => SafeLockKeeps(scene, output, s, p);
      }
    }
  }

  lemma {:induction false} SafeRunLosesNothing(scene: Scene, output: Rect, events: seq<Event>)
    requires Proper(output) && output.x0 == 0 && output.y0 == 0 && SafeRun(scene, output, events)
    ensures LostIn(scene, output, events) == iset{}
    decreases |events|
  {
    if events != [] {
      SafeLosesNothing(scene, output, events[0]);
      SafeRunLosesNothing(Apply(scene, output, events[0]), output, events[1..]);
    }
  }

  /** The z-order stays sound. */
  lemma PartlyStacked(scene: Scene, output: Rect, e: Event)
    requires Partly(e) && Stacked(scene.windows)
    ensures var b := Apply(scene, output, e); Stacked(b.windows) && |b.windows| == |scene.windows|
  {
    if e.EvRequest? && e.target.Window? && SurfaceAt(scene, e.target).Some? {
      var i := IndexOf(scene.windows, e.target.id).value;
      ReplacedStacked(scene.windows, i, After(scene.windows[i], e.request, scene.scale, output));
    }
    if e.EvDrag? && IndexOf(scene.windows, e.id).Some? {
      var i := IndexOf(scene.windows, e.id).value;
      ReplacedStacked(scene.windows, i, scene.windows[i].(rect := MovedRect(scene.windows[i].rect, e.x, e.y)));
    }
  }
}
