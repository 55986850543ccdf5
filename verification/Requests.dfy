/** What a client may ask of a surface that is already on screen, how the surface
    is drawn afterwards, and which output rectangles the compositor damages for it.
    Some requests damage too little; the lemmas say exactly when. */
module Requests {
  import opened Options
  import opened Geometry
  import opened Texture
  import opened Scene
  import opened ZOrder
  import opened Stretch
  import opened Scaled
  import opened AtOnce

  const MAX_DIRTY := 16

  /** The surface a request is about. */
  datatype Target = Window(id: nat) | TheCursor | TheIcon | TheLock

  /** A buffer, and whether it has to be blended. */
  datatype Content = Content(buffer: Buffer, blends: bool)

  /** `dirty` holds the buffer rectangles a client declared since the surface was
      last composited; `declared` those in logical pixels. */
  datatype Request =
    | Commit(content: Content, dirty: seq<Rect>)
    | Redraw(texels: (int, int) -> Colour, dirty: seq<Rect>, declared: seq<Rect>)
    | Detach
    | SetOpaque(blends: bool)
    | SetViewport(viewport: Viewport, blends: bool)
    | SetScale(scale: Scale, blends: bool)
    | Fullscreen
    | Windowed(x: int, y: int)

  function SurfaceAt(scene: Scene, t: Target): Option<Surface> {
    match t
    case TheCursor => scene.cursor
    case TheIcon => scene.icon
    case TheLock => scene.lock
    case Window(id) =>
      match IndexOf(scene.windows, id)
      case None => None
      case Some(i) => Some(scene.windows[i])
  }

  function PutAt(scene: Scene, t: Target, s: Surface): Scene {
    match t
    case TheCursor => scene.(cursor := Some(s))
    case TheIcon => scene.(icon := Some(s))
    case TheLock => scene.(lock := Some(s))
    case Window(id) =>
      match IndexOf(scene.windows, id)
      case None => scene
      case Some(i) => scene.(windows := scene.windows[i := s])
  }

  // ---- the surface afterwards ----------------------------------------------------------------------

  /** The size a surface asks for, in logical pixels. */
  function DisplayWidth(s: Surface): int {
    if s.viewport.dst.Some? then s.viewport.dst.value.w
    else if s.viewport.src.Some? then s.viewport.src.value.w / 256
    else CeilDiv(s.buffer.w, s.scale)
  }

  function DisplayHeight(s: Surface): int {
    if s.viewport.dst.Some? then s.viewport.dst.value.h
    else if s.viewport.src.Some? then s.viewport.src.value.h / 256
    else CeilDiv(s.buffer.h, s.scale)
  }

  /** A surface at its place: a fullscreen toplevel is stretched over the output. */
  function Placed(s: Surface, outScale: Scale, output: Rect): Surface {
    if s.fills then s.(rect := output)
    else s.(rect := Rect(s.rect.x0, s.rect.y0,
                         s.rect.x0 + DisplayWidth(s) * outScale, s.rect.y0 + DisplayHeight(s) * outScale))
  }

  /** The surface after a request.  A detached buffer is gone; a window without one
      is unmapped besides. */
  function After(s: Surface, r: Request, outScale: Scale, output: Rect): (s': Surface)
    ensures s'.id == s.id && s'.role == s.role
  {
    match r
    case Commit(c, _) => Placed(s.(hasBuffer := true, buffer := c.buffer, blends := c.blends), outScale, output)
    case Redraw(texels, _, _) => s.(buffer := s.buffer.(texels := texels))
    case Detach => s.(hasBuffer := false)
    case SetOpaque(blends) => s.(blends := blends)
    case SetViewport(v, blends) => Placed(s.(viewport := v, blends := blends), outScale, output)
    case SetScale(n, blends) => Placed(s.(scale := n, blends := blends), outScale, output)
    case Fullscreen => if s.role == Toplevel then Placed(s.(fills := true), outScale, output) else s
    case Windowed(x, y) =>
      if s.role == Toplevel && s.fills then Placed(s.(fills := false, rect := Rect(x, y, x, y)), outScale, output) else s
  }

  // ---- the damage recorded for it ------------------------------------------------------------------

  function Shifted(r: Rect, x: int, y: int): Rect {
    Rect(r.x0 + x, r.y0 + y, r.x1 + x, r.y1 + y)
  }

  predicate InQuadrant(r: Rect) {
    0 <= r.x0 <= r.x1 && 0 <= r.y0 <= r.y1
  }

  predicate InBuffer(rs: seq<Rect>, w: nat, h: nat) {
    forall k :: 0 <= k < |rs| ==> InQuadrant(rs[k]) && Proper(rs[k]) && Within(rs[k], Rect(0, 0, w, h))
  }

  /** The declared rectangles that reach the buffer, cut to it. */
  function Listed(dirty: seq<Rect>, w: nat, h: nat): (rs: seq<Rect>)
    ensures InBuffer(rs, w, h)
  {
    if dirty == [] then []
    else
      var n := |dirty| - 1;
      var cut := Intersection(dirty[n], Rect(0, 0, w, h));
      if cut.None? then Listed(dirty[..n], w, h) else Listed(dirty[..n], w, h) + [cut.value]
  }

  /** The declared damage as it is kept: too many rectangles count as everything. */
  function Held(dirty: seq<Rect>, w: nat, h: nat): (rs: seq<Rect>)
    ensures InBuffer(rs, w, h)
  {
    var rs := Listed(dirty, w, h);
    if |rs| > MAX_DIRTY then [] else rs
  }

  /** Everything a surface covers on screen. */
  function Whole(s: Surface): seq<Rect> {
    if OutputRect(s).Some? then [OutputRect(s).value] else []
  }

  /** Whether declared damage still says what a new buffer changed. */
  predicate Preserved(s: Surface, c: Content, dirty: seq<Rect>) {
    && s.hasBuffer && s.buffer.shm && c.buffer.shm && s.buffer.w == c.buffer.w && s.buffer.h == c.buffer.h
    && Held(dirty, s.buffer.w, s.buffer.h) != [] && s.viewport == UNSET
  }

  /** Dirty texels of a surface that is not stretched, in output pixels. */
  function ScaledRects(dirty: seq<Rect>, scale: Scale, outScale: Scale, x: int, y: int): (rs: seq<Rect>)
    requires forall k :: 0 <= k < |dirty| ==> InQuadrant(dirty[k])
    ensures |rs| == |dirty|
    ensures forall k :: 0 <= k < |rs| ==>
              InQuadrant(dirty[k]) && rs[k] == Shifted(ScaledRect(dirty[k], scale, outScale), x, y)
  {
    if dirty == [] then []
    else
      var n := |dirty| - 1;
      assert InQuadrant(dirty[n]);
      ScaledRects(dirty[..n], scale, outScale, x, y) + [Shifted(ScaledRect(dirty[n], scale, outScale), x, y)]
  }

  /** What a damage request damages at once: origin and size are each divided by the
      buffer scale on their own. */
  function RectAtOnce(r: Rect, scale: Scale, outScale: Scale): Rect {
    var x, y := Quotient(r.x0, scale), Quotient(r.y0, scale);
    Rect(x * outScale, y * outScale,
         (x + Quotient(r.x1 - r.x0 + scale - 1, scale)) * outScale,
         (y + Quotient(r.y1 - r.y0 + scale - 1, scale)) * outScale)
  }

  /** The rectangles of buffer and of surface damage, at their place. */
  function DeclaredRects(s: Surface, dirty: seq<Rect>, declared: seq<Rect>, outScale: Scale): seq<Rect> {
    var x, y := s.rect.x0, s.rect.y0;
    seq(|dirty|, k requires 0 <= k < |dirty| => Shifted(RectAtOnce(dirty[k], s.scale, outScale), x, y))
    + seq(|declared|, k requires 0 <= k < |declared| => Shifted(RectAtOnce(declared[k], 1, outScale), x, y))
  }

  /** `output_damage_add_surface_dirty_rects` for a surface at its new content. */
  function DirtyRects(s: Surface, dirty: seq<Rect>, outScale: Scale, output: Rect): seq<Rect>
    requires Proper(output)
  {
    var w, h := s.buffer.w, s.buffer.h;
    var held := Held(dirty, w, h);
    if !s.fills then ScaledRects(held, s.scale, outScale, s.rect.x0, s.rect.y0)
    else if w == 0 || h == 0 then Whole(s)
    else Mapped(held, Rect(0, 0, w, h), output.x1 - output.x0, output.y1 - output.y0)
  }

  /** Every output rectangle the compositor damages for a request. */
  function Recorded(t: Target, s: Surface, r: Request, outScale: Scale, output: Rect): seq<Rect>
    requires Proper(output)
  {
    var s' := After(s, r, outScale, output);
    match r
    case Commit(c, dirty) =>
      if t.Window? && Preserved(s, c, dirty) then DirtyRects(s', dirty, outScale, output) else Whole(s')
    case Redraw(_, dirty, declared) =>
      if t.Window? then DeclaredRects(s, dirty, declared, outScale)
      else if t.TheLock? || dirty + declared == [] then [] else Whole(s)
    case SetOpaque(_) => []
    case Detach => if t.TheLock? then [] else Whole(s)
    case SetViewport(_, _) => []
    case SetScale(_, _) => if t.Window? then Whole(s) + Whole(s') else []
    case Fullscreen => Whole(s')
    case Windowed(_, _) => Whole(s'.(rect := Shifted(s'.rect, output.x0 - s'.rect.x0, output.y0 - s'.rect.y0))) + Whole(s')
  }

  // ---- what a change of one surface changes on screen ----------------------------------------------

  /** The output pixels at which two scenes differ. */
  ghost function Changed(a: Scene, b: Scene, output: Rect): iset<Point> {
    iset p | Contains(output, p) && FullRepaint(a, p) != FullRepaint(b, p)
  }

  /** A surface as its layer is painted. */
  function Drawn(t: Target, s: Surface): Surface {
    match t
    case Window(_) => s
    case TheLock => s.(blends := false, role := RoleNone)
    case _ => s.(blends := true, role := RoleNone)
  }

  /** Being a layer changes only whether a surface is blended. */
  lemma DrawnColour(t: Target, s: Surface, p: Point)
    ensures ColourAt(Drawn(t, s), p) == ColourAt(s, p)
    ensures Drawn(t, s).blend == s.blend && (OnOutput(Drawn(t, s), p) <==> OnOutput(s, p))
  {
    ColourIsSample(s, p);
    ColourIsSample(Drawn(t, s), p);
    assert SpotOf(Drawn(t, s), p) == SpotOf(s, p);
  }

  /** Below the lock surface there is only black. */
  predicate Below(t: Target, c: Colour) {
    t.TheLock? ==> c == BLACK
  }

  /** One surface in place of another makes no difference at a pixel. */
  ghost predicate Alike(t: Target, s: Surface, s': Surface, p: Point) {
    forall c :: Below(t, c) ==> Over(Drawn(t, s), p, c) == Over(Drawn(t, s'), p, c)
  }

  ghost predicate AlikeOutside(t: Target, s: Surface, s': Surface, rects: seq<Rect>, output: Rect) {
    forall p :: Contains(output, p) && !Covered(rects, p) ==> Alike(t, s, s', p)
  }

  /** In no surroundings does the change reach a pixel outside the rectangles. */
  ghost predicate NeverLoses(t: Target, s: Surface, s': Surface, rects: seq<Rect>, output: Rect) {
    forall a: Scene, p :: (Stacked(a.windows) && |a.windows| <= MAX_SURFACES && SurfaceAt(a, t) == Some(s) &&
                           p in Changed(a, PutAt(a, t, s'), output)) ==> Covered(rects, p)
  }

  lemma PaintSwapped(below: seq<Surface>, s: Surface, s': Surface, above: seq<Surface>, p: Point)
    requires Over(s, p, Paint(below, p)) == Over(s', p, Paint(below, p))
    ensures Paint(below + [s] + above, p) == Paint(below + [s'] + above, p)
  {
    assert (below + [s])[..|below|] == below && (below + [s'])[..|below|] == below;
    PaintAbove(below + [s], below + [s'], above, p);
  }

  /** The layers around a target, or none if it is not painted. */
  function Around(a: Scene, t: Target): Option<(seq<Surface>, seq<Surface>)> {
    match t
    case TheCursor => if a.cursor.None? then None else Some((Layers(a.(cursor := None)), []))
    case TheIcon => if a.locked || a.icon.None? then None else Some((Body(a), Optional(Overlay(a.cursor))))
    case TheLock => if !a.locked || a.lock.None? then None else Some(([], Overlays(a)))
    case Window(id) =>
      match IndexOf(a.windows, id)
      case None => None
      case Some(i) => if a.locked then None else Some((a.windows[..i], a.windows[i + 1..] + Overlays(a)))
  }

  lemma LayersAround(a: Scene, t: Target, s: Surface)
    requires SurfaceAt(a, t) == Some(s)
    ensures match Around(a, t)
            case None => forall s': Surface :: Layers(PutAt(a, t, s')) == Layers(a)
            case Some((below, above)) =>
              && Layers(a) == below + [Drawn(t, s)] + above
              && (t.TheLock? ==> below == [])
              && forall s': Surface :: Layers(PutAt(a, t, s')) == below + [Drawn(t, s')] + above
  {
    match t
    case TheCursor =>
      assert Layers(a) == Layers(a.(cursor := None)) + [Drawn(t, s)] + [];
      forall s': Surface ensures Layers(PutAt(a, t, s')) == Layers(a.(cursor := None)) + [Drawn(t, s')] + [] {
        assert Body(PutAt(a, t, s')) == Body(a);
      }
    case TheIcon => IconAround(a, s);
    case TheLock => LockAround(a, s);
    case Window(id) => WindowAround(a, id, s);
  }

  lemma IconAround(a: Scene, s: Surface)
    requires a.icon == Some(s)
    ensures a.locked ==> forall s' :: Layers(a.(icon := Some(s'))) == Layers(a)
    ensures !a.locked ==> Layers(a) == Body(a) + [Drawn(TheIcon, s)] + Optional(Overlay(a.cursor))
    ensures !a.locked ==>
            forall s' :: Layers(a.(icon := Some(s'))) == Body(a) + [Drawn(TheIcon, s')] + Optional(Overlay(a.cursor))
  {
    forall s': Surface
      ensures a.locked ==> Layers(a.(icon := Some(s'))) == Layers(a)
      ensures !a.locked ==> Layers(a.(icon := Some(s'))) == Body(a) + [Drawn(TheIcon, s')] + Optional(Overlay(a.cursor))
    {
      var b := a.(icon := Some(s'));
      assert Body(b) == Body(a);
    }
    assert a == a.(icon := Some(s));
  }

  lemma LockAround(a: Scene, s: Surface)
    requires a.lock == Some(s)
    ensures !a.locked ==> forall s' :: Layers(a.(lock := Some(s'))) == Layers(a)
    ensures a.locked ==> Layers(a) == [] + [Drawn(TheLock, s)] + Overlays(a)
    ensures a.locked ==> forall s' :: Layers(a.(lock := Some(s'))) == [] + [Drawn(TheLock, s')] + Overlays(a)
  {
    forall s': Surface
      ensures !a.locked ==> Layers(a.(lock := Some(s'))) == Layers(a)
      ensures a.locked ==> Layers(a.(lock := Some(s'))) == [] + [Drawn(TheLock, s')] + Overlays(a)
    {
      var b := a.(lock := Some(s'));
      assert Overlays(b) == Overlays(a);
    }
    assert a == a.(lock := Some(s));
  }

  lemma WindowAround(a: Scene, id: nat, s: Surface)
    requires SurfaceAt(a, Window(id)) == Some(s)
    ensures a.locked ==> forall s' :: Layers(PutAt(a, Window(id), s')) == Layers(a)
    ensures var i := IndexOf(a.windows, id).value;
            !a.locked ==>
              && Layers(a) == a.windows[..i] + [s] + (a.windows[i + 1..] + Overlays(a))
              && forall s' :: Layers(PutAt(a, Window(id), s')) == a.windows[..i] + [s'] + (a.windows[i + 1..] + Overlays(a))
  {
    var i := IndexOf(a.windows, id).value;
    forall s': Surface
      ensures a.locked ==> Layers(PutAt(a, Window(id), s')) == Layers(a)
      ensures !a.locked ==> Layers(PutAt(a, Window(id), s')) == a.windows[..i] + [s'] + (a.windows[i + 1..] + Overlays(a))
    {
      var b := PutAt(a, Window(id), s');
      assert Overlays(b) == Overlays(a);
    }
    assert a.windows == a.windows[i := s];
    assert a == PutAt(a, Window(id), s);
  }

  /** Where the surfaces draw alike, the scenes look alike. */
  lemma AlikeRepaint(a: Scene, t: Target, s: Surface, s': Surface, p: Point)
    requires SurfaceAt(a, t) == Some(s) && s'.id == s.id && Alike(t, s, s', p)
    ensures FullRepaint(a, p) == FullRepaint(PutAt(a, t, s'), p)
  {
    LayersAround(a, t, s);
    if Around(a, t).Some? {
      var (below, above) := Around(a, t).value;
      assert t.TheLock? ==> Paint(below, p) == BLACK;
      PaintSwapped(below, Drawn(t, s), Drawn(t, s'), above, p);
    }
  }

  /** An opaque window of one colour under everything. */
  function Backdrop(id: nat, output: Rect, c: Colour): Surface {
    Surface(id, Layer(0), None, false, true, output, Buffer(1, 1, (x, y) => c, false), 1, UNSET, false, false,
            (fx, fy, a, b, d, e) => a, (a, b) => a)
  }

  /** A scene in which a surface is painted over one colour. */
  function Before(t: Target, s: Surface, output: Rect, c: Colour): Scene {
    var back := Backdrop(s.id + 1, output, c);
    match t
    case Window(_) => Scene([back, s], None, None, false, None, 1)
    case TheCursor => Scene([back], None, Some(s), false, None, 1)
    case TheIcon => Scene([back], Some(s), None, false, None, 1)
    case TheLock => Scene([], None, None, true, Some(s), 1)
  }

  lemma BackdropPaints(id: nat, output: Rect, c: Colour, p: Point)
    requires Contains(output, p)
    ensures Paint([], p) == BLACK && Paint([Backdrop(id, output, c)], p) == c
  {
    var back := Backdrop(id, output, c);
    assert [back][..0] == [];
    assert Hits(back, p);
  }

  lemma BeforeIsSound(t: Target, s: Surface, output: Rect, c: Colour)
    requires t.Window? ==> t.id == s.id
    ensures var a := Before(t, s, output, c);
            Stacked(a.windows) && |a.windows| <= MAX_SURFACES && SurfaceAt(a, t) == Some(s)
  {
    var a := Before(t, s, output, c);
    if t.Window? {
      assert a.windows[0].id != s.id && a.windows[1].id == s.id;
    }
  }

  /** Over one colour, the surface's own drawing is what is seen. */
  lemma BeforeShows(t: Target, s: Surface, s': Surface, output: Rect, c: Colour, p: Point)
    requires (t.Window? ==> t.id == s.id) && s'.id == s.id && Contains(output, p) && Below(t, c)
    ensures FullRepaint(PutAt(Before(t, s, output, c), t, s'), p) == Over(Drawn(t, s'), p, c)
  {
    var below := if t.TheLock? then [] else [Backdrop(s.id + 1, output, c)];
    BackdropPaints(s.id + 1, output, c, p);
    BeforeLayers(t, s, s', output, c, below);
    assert (below + [Drawn(t, s')])[..|below|] == below;
  }

  lemma BeforeLayers(t: Target, s: Surface, s': Surface, output: Rect, c: Colour, below: seq<Surface>)
    requires (t.Window? ==> t.id == s.id) && s'.id == s.id
    requires below == if t.TheLock? then [] else [Backdrop(s.id + 1, output, c)]
    ensures Layers(PutAt(Before(t, s, output, c), t, s')) == below + [Drawn(t, s')]
  {
    var a := Before(t, s, output, c);
    BeforeIsSound(t, s, output, c);
    LayersAround(a, t, s);
    assert Around(a, t).Some?;
    var (under, above) := Around(a, t).value;
    assert above == [] && under == below;
  }

  lemma SamePutBack(a: Scene, t: Target, s: Surface)
    requires SurfaceAt(a, t) == Some(s)
    ensures PutAt(a, t, s) == a
  {
    if t.Window? {
      var i := IndexOf(a.windows, t.id).value;
      assert a.windows[i := s] == a.windows;
    }
  }

  /** A request loses no pixel in any surroundings exactly when, outside the damage
      recorded for it, the surface draws as before over every background. */
  lemma LosesExactly(t: Target, s: Surface, s': Surface, rects: seq<Rect>, output: Rect)
    requires (t.Window? ==> t.id == s.id) && s'.id == s.id
    ensures NeverLoses(t, s, s', rects, output) <==> AlikeOutside(t, s, s', rects, output)
  {
    if AlikeOutside(t, s, s', rects, output) {
      forall a: Scene, p |
        Stacked(a.windows) && |a.windows| <= MAX_SURFACES && SurfaceAt(a, t) == Some(s) &&
        p in Changed(a, PutAt(a, t, s'), output)
        ensures Covered(rects, p)
      {
        if !Covered(rects, p) {
          AlikeRepaint(a, t, s, s', p);
        }
      }
    }
    if NeverLoses(t, s, s', rects, output) {
      forall p, c | Contains(output, p) && !Covered(rects, p) && Below(t, c)
        ensures Over(Drawn(t, s), p, c) == Over(Drawn(t, s'), p, c)
      {
        var a := Before(t, s, output, c);
        BeforeIsSound(t, s, output, c);
        BeforeShows(t, s, s', output, c, p);
        BeforeShows(t, s, s, output, c, p);
        SamePutBack(a, t, s);
        assert p !in Changed(a, PutAt(a, t, s'), output);
      }
    }
  }
}
