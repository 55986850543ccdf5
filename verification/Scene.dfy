/** What is on screen: mapped surfaces in z-order, the drag icon and cursor above
    them, and the session lock.  `FullRepaint` is the simple reference the
    incremental compositor must agree with: clear to black, then paint every
    shown surface whole, back to front. */
module Scene {
  import opened Options
  import opened Geometry
  import opened Texture

  const BLACK: Colour := 0

  datatype Role = RoleNone | Toplevel | Popup | Subsurface | Layer(level: int)

  /** A viewport: a source rectangle in 1/256 logical pixels, a size in logical
      pixels; either may be unset. */
  datatype Viewport = Viewport(src: Option<Crop>, dst: Option<Size>)

  datatype Crop = Crop(x: nat, y: nat, w: nat, h: nat)

  datatype Size = Size(w: int, h: int)

  const UNSET := Viewport(None, None)

  /** A surface as the compositor draws it: its buffer stretched over `rect` by the
      linear filter, then either written or, if it `blends`, composed with what is
      below.  Texels, filter arithmetic and blending are arbitrary functions. */
  datatype Surface = Surface(
    id: nat,
    role: Role,
    parent: Option<nat>,
    minimized: bool,
    hasBuffer: bool,
    rect: Rect,
    buffer: Buffer,
    scale: Scale,
    viewport: Viewport,
    fills: bool,
    blends: bool,
    filter: Mix,
    blend: (Colour, Colour) -> Colour)

  /** The session as it is drawn, on an output of an integer scale. */
  datatype Scene = Scene(
    windows: seq<Surface>,
    icon: Option<Surface>,
    cursor: Option<Surface>,
    locked: bool,
    lock: Option<Surface>,
    scale: Scale)

  /** Where a surface lies on the output, if it can be seen at all. */
  function OutputRect(s: Surface): Option<Rect> {
    if s.hasBuffer && Proper(s.rect) then Some(s.rect) else None
  }

  /** An iconified toplevel is neither drawn nor occluding. */
  predicate Iconified(s: Surface) {
    s.role == Toplevel && s.minimized
  }

  predicate OnOutput(s: Surface, p: Point) {
    OutputRect(s).Some? && Contains(OutputRect(s).value, p)
  }

  predicate Hits(s: Surface, p: Point) {
    !Iconified(s) && OnOutput(s, p)
  }

  /** The rectangle a surface hides completely. */
  function OpaqueRect(s: Surface): Option<Rect> {
    if s.blends || Iconified(s) then None else OutputRect(s)
  }

  /** A source coordinate in whole buffer pixels, rounded to nearest. */
  function BufferPx(v: nat, scale: Scale, limit: nat): nat {
    if v > limit * 256 / scale then limit
    else
      var px := (v * scale + 128) / 256;
      if px < limit then px else limit
  }

  /** The part of the buffer a surface samples. */
  function SourceRect(s: Surface): Rect {
    match s.viewport.src
    case None => Rect(0, 0, s.buffer.w, s.buffer.h)
    case Some(c) =>
      Rect(BufferPx(c.x, s.scale, s.buffer.w), BufferPx(c.y, s.scale, s.buffer.h),
           BufferPx(c.x + c.w, s.scale, s.buffer.w), BufferPx(c.y + c.h, s.scale, s.buffer.h))
  }

  /** Where an output pixel of a surface is sampled. */
  function SpotOf(s: Surface, p: Point): Spot {
    SpotIn(s.buffer.w, s.buffer.h, SourceRect(s), s.rect.x1 - s.rect.x0, s.rect.y1 - s.rect.y0,
           p.x - s.rect.x0, p.y - s.rect.y0)
  }

  /** What a surface shows at an output pixel. */
  function ColourAt(s: Surface, p: Point): Colour {
    if s.viewport.src.None? then
      Sample(s.buffer, s.filter, s.rect.x1 - s.rect.x0, s.rect.y1 - s.rect.y0, p.x - s.rect.x0, p.y - s.rect.y0)
    else SampleAt(s.buffer.texels, s.filter, SpotOf(s, p))
  }

  lemma ColourIsSample(s: Surface, p: Point)
    ensures ColourAt(s, p) == SampleAt(s.buffer.texels, s.filter, SpotOf(s, p))
  {
    WholePart(s.buffer, s.filter, s.rect.x1 - s.rect.x0, s.rect.y1 - s.rect.y0, p.x - s.rect.x0, p.y - s.rect.y0);
  }

  function DrawnOver(s: Surface, p: Point, below: Colour): Colour {
    if s.blends then s.blend(ColourAt(s, p), below) else ColourAt(s, p)
  }

  /** A pixel after one more layer. */
  function Over(s: Surface, p: Point, below: Colour): Colour {
    if Hits(s, p) then DrawnOver(s, p, below) else below
  }

  /** The colour of one pixel after painting the layers whole, first one lowest. */
  function Paint(layers: seq<Surface>, p: Point): Colour {
    if layers == [] then BLACK
    else
      var top := layers[|layers| - 1];
      Over(top, p, Paint(layers[..|layers| - 1], p))
  }

  function Optional(s: Option<Surface>): seq<Surface> {
    match s
    case None => []
    case Some(v) => [v]
  }

  /** Drag icon and cursor are always blended, the lock surface never is. */
  function Overlay(s: Option<Surface>): Option<Surface> {
    match s
    case None => None
    case Some(v) => Some(v.(blends := true, role := RoleNone))
  }

  function LockLayer(s: Option<Surface>): Option<Surface> {
    match s
    case None => None
    case Some(v) => Some(v.(blends := false, role := RoleNone))
  }

  /** The windows the current session state lets through. */
  function Body(scene: Scene): seq<Surface> {
    if scene.locked then Optional(LockLayer(scene.lock))
    else scene.windows
  }

  function Overlays(scene: Scene): seq<Surface> {
    (if scene.locked then [] else Optional(Overlay(scene.icon))) + Optional(Overlay(scene.cursor))
  }

  function Layers(scene: Scene): seq<Surface> {
    Body(scene) + Overlays(scene)
  }

  function FullRepaint(scene: Scene, p: Point): Colour {
    Paint(Layers(scene), p)
  }

  // ---- how the reference reacts to a change of the layer list ----------------

  lemma PaintStep(layers: seq<Surface>, i: nat, p: Point)
    requires i < |layers|
    ensures Paint(layers[..i + 1], p) ==
            if Hits(layers[i], p) then DrawnOver(layers[i], p, Paint(layers[..i], p))
            else Paint(layers[..i], p)
  {
    assert layers[..i + 1][..i] == layers[..i];
  }

  /** Painting `b` over two equally painted stacks gives equal pixels. */
  lemma {:induction false} PaintAbove(a: seq<Surface>, a': seq<Surface>, b: seq<Surface>, p: Point)
    requires Paint(a, p) == Paint(a', p)
    ensures Paint(a + b, p) == Paint(a' + b, p)
  {
    if b == [] {
      assert a + b == a && a' + b == a';
    } else {
      var front := b[..|b| - 1];
      PaintAbove(a, a', front, p);
      assert (a + b)[..|a + b| - 1] == a + front;
      assert (a' + b)[..|a' + b| - 1] == a' + front;
    }
  }

  /** A surface that does not reach a pixel can be left out of the stack there. */
  lemma PaintWithout(a: seq<Surface>, s: Surface, b: seq<Surface>, p: Point)
    requires !Hits(s, p)
    ensures Paint(a + [s] + b, p) == Paint(a + b, p)
  {
    assert (a + [s])[..|a|] == a;
    PaintAbove(a + [s], a, b, p);
  }
}
