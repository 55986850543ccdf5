/** Painting into one output buffer: the scissored GL target, the visible part of
    a surface inside a damage rectangle, and the loop that repaints the damaged
    pixels only.  The result is that the damaged pixels equal a full repaint and
    no other pixel changes. */
module Painter {
  import opened Options
  import opened Geometry
  import opened Texture
  import opened Scene

  const MAX_VISIBLE_RECTS := 32

  /** A window from index `i` upwards hides the pixel completely. */
  ghost predicate Occluded(windows: seq<Surface>, i: nat, p: Point) {
    exists j :: i <= j < |windows| && OpaqueRect(windows[j]).Some? && Contains(OpaqueRect(windows[j]).value, p)
  }

  /** The bound output buffer with its scissor state. */
  class GlTarget {
    const width: nat
    const height: nat
    var canvas: Point -> Colour
    var scissor: Option<Rect>

    constructor (width: nat, height: nat, content: Point -> Colour)
      ensures this.width == width && this.height == height
      ensures canvas == content && scissor.None?
    {
      this.width, this.height := width, height;
      canvas, scissor := content, None;
    }

    function Output(): Rect { Rect(0, 0, width, height) }

    /** The pixels the next draw may write. */
    function Clip(): Rect
      reads this
    {
      if scissor.Some? then scissor.value else Output()
    }

    /** Set the scissor.  A rectangle that is empty after clamping turns the
        scissor off, as the full output does; for a proper rectangle inside the
        output the clip is exactly that rectangle. */
    method SetDamage(r: Rect)
      modifies this`scissor
      ensures Proper(r) && Within(r, Output()) ==> Clip() == r
      ensures Intersection(r, Output()).None? ==> Clip() == Output()
    {
      var x, y, w, h := r.x0, r.y0, r.x1 - r.x0, r.y1 - r.y0;
      if x < 0 { w := w + x; x := 0; }
      if y < 0 { h := h + y; y := 0; }
      if x + w > width { w := width - x; }
      if y + h > height { h := height - y; }
      if w <= 0 || h <= 0 || (x == 0 && y == 0 && w == width && h == height) {
        scissor := None;
      } else {
        scissor := Some(Rect(x, y, x + w, y + h));
      }
    }

    /** Clip to a damage rectangle and clear it to black. */
    method BeginDamage(r: Rect)
      requires Proper(r) && Within(r, Output())
      modifies this
      ensures Clip() == r
      ensures forall p :: canvas(p) == if Contains(r, p) then BLACK else old(canvas)(p)
    {
      SetDamage(r);
      var clip, was := Clip(), canvas;
      canvas := p => if Contains(clip, p) then BLACK else was(p);
    }

    /** Draw one surface through the current clip. */
    method Draw(s: Surface)
      modifies this`canvas
      ensures forall p :: canvas(p) ==
                          if Contains(Clip(), p) && OnOutput(s, p) then DrawnOver(s, p, old(canvas)(p))
                          else old(canvas)(p)
    {
      var clip, was := Clip(), canvas;
      canvas := p => if Contains(clip, p) && OnOutput(s, p) then DrawnOver(s, p, was(p)) else was(p);
    }
  }

  lemma OccludedStep(windows: seq<Surface>, i: nat, p: Point)
    requires i < |windows|
    ensures Occluded(windows, i, p) <==>
            Occluded(windows, i + 1, p) ||
            (OpaqueRect(windows[i]).Some? && Contains(OpaqueRect(windows[i]).value, p))
  {
  }

  /** A surface's pixels inside a damage rectangle that no opaque window above
      hides: exactly those, each in one piece, unless the piece list overflowed,
      when the answer is the whole unclipped overlap. */
  method VisibleDamageRects(windows: seq<Surface>, i: nat, damage: Rect) returns (visible: seq<Rect>)
    requires i < |windows|
    ensures AllProper(visible) && Disjoint(visible) && AllWithin(visible, damage)
    ensures forall p :: Covered(visible, p) ==> OnOutput(windows[i], p)
    ensures forall p :: Contains(damage, p) && OnOutput(windows[i], p) && !Occluded(windows, i + 1, p) ==>
                        Covered(visible, p)
    ensures || (forall p :: Covered(visible, p) ==> !Occluded(windows, i + 1, p))
            || (OutputRect(windows[i]).Some? && Intersection(OutputRect(windows[i]).value, damage).Some? &&
                visible == [Intersection(OutputRect(windows[i]).value, damage).value])
  {
    var surfacePx := OutputRect(windows[i]);
    if surfacePx.None? {
      return [];
    }
    var original := Intersection(surfacePx.value, damage);
    if original.None? {
      return [];
    }
    visible := [original.value];
    assert forall p :: Covered(visible, p) <==> Contains(visible[0], p);
    var j := i + 1;
    while j < |windows|
      invariant i + 1 <= j <= |windows|
      invariant AllProper(visible) && Disjoint(visible) && AllWithin(visible, original.value)
      invariant forall p :: Covered(visible, p) ==> Contains(original.value, p)
      invariant forall p :: Contains(original.value, p) && !Covered(visible, p) ==> Occluded(windows, i + 1, p)
      invariant forall p :: Covered(visible, p) && Occluded(windows, i + 1, p) ==> Occluded(windows, j, p)
    {
      var opaquePx := OpaqueRect(windows[j]);
      if opaquePx.Some? {
        ListPiecesExact(visible, opaquePx.value, original.value);
        var r := ListSubtractOne(visible, MAX_VISIBLE_RECTS, opaquePx.value);
        if r.None? {
          assert forall p :: Covered([original.value], p) <==> Contains([original.value][0], p);
          return [original.value];
        }
        visible := r.value;
        if visible == [] {
          return [];
        }
      }
      forall p ensures Occluded(windows, j, p) <==>
                       Occluded(windows, j + 1, p) ||
                       (opaquePx.Some? && Contains(opaquePx.value, p)) {
        OccludedStep(windows, j, p);
      }
      j := j + 1;
    }
  }

  /** Draw one window through each of its visible pieces.  A pixel of the damage
      rectangle that nothing opaque above hides is drawn exactly once. */
  method DrawWindow(gl: GlTarget, windows: seq<Surface>, i: nat, d: Rect)
    requires i < |windows|
    requires Proper(d) && Within(d, gl.Output())
    modifies gl
    ensures forall p :: !Contains(d, p) ==> gl.canvas(p) == old(gl.canvas)(p)
    ensures forall p :: Contains(d, p) && !Occluded(windows, i + 1, p) ==>
                        gl.canvas(p) == if Hits(windows[i], p) then DrawnOver(windows[i], p, old(gl.canvas)(p))
                                        else old(gl.canvas)(p)
  {
    var s := windows[i];
    if Iconified(s) {
      return;
    }
    var visible := VisibleDamageRects(windows, i, d);
    var vi := 0;
    while vi < |visible|
      invariant 0 <= vi <= |visible|
      invariant forall p :: gl.canvas(p) ==
                            if Covered(visible[..vi], p) then DrawnOver(s, p, old(gl.canvas)(p))
                            else old(gl.canvas)(p)
    {
      var v := visible[vi];
      gl.SetDamage(v);
      gl.Draw(s);
      forall p
        ensures gl.canvas(p) == if Covered(visible[..vi + 1], p) then DrawnOver(s, p, old(gl.canvas)(p))
                                else old(gl.canvas)(p)
      {
        DrawnOnce(visible, vi, p);
        if Contains(v, p) {
          assert Covered(visible, p);
        }
      }
      vi := vi + 1;
    }
    assert visible[..vi] == visible;
    forall p | !Contains(d, p) ensures !Covered(visible, p) {
    }
  }

  /** In a disjoint list, the next rectangle only adds pixels not yet covered. */
  lemma DrawnOnce(visible: seq<Rect>, vi: nat, p: Point)
    requires vi < |visible| && Disjoint(visible)
    ensures Covered(visible[..vi + 1], p) <==> Covered(visible[..vi], p) || Contains(visible[vi], p)
    ensures Contains(visible[vi], p) ==> !Covered(visible[..vi], p)
  {
    CoveredConcat(visible[..vi], [visible[vi]], p);
    assert visible[..vi + 1] == visible[..vi] + [visible[vi]];
    assert Covered([visible[vi]], p) <==> Contains([visible[vi]][0], p);
  }

  /** Paint the windows of an unlocked session inside one cleared rectangle. */
  method DrawWindows(gl: GlTarget, windows: seq<Surface>, d: Rect)
    requires Proper(d) && Within(d, gl.Output())
    requires forall p :: Contains(d, p) ==> gl.canvas(p) == BLACK
    modifies gl
    ensures forall p :: gl.canvas(p) == if Contains(d, p) then Paint(windows, p) else old(gl.canvas)(p)
  {
    var i := 0;
    while i < |windows|
      invariant 0 <= i <= |windows|
      invariant forall p :: !Contains(d, p) ==> gl.canvas(p) == old(gl.canvas)(p)
      invariant forall p :: Contains(d, p) && !Occluded(windows, i, p) ==> gl.canvas(p) == Paint(windows[..i], p)
    {
      DrawWindow(gl, windows, i, d);
      forall p | Contains(d, p) && !Occluded(windows, i + 1, p)
        ensures gl.canvas(p) == Paint(windows[..i + 1], p)
      {
        PaintStep(windows, i, p);
        OccludedStep(windows, i, p);
      }
      i := i + 1;
    }
    assert windows[..i] == windows;
  }

  /** Draw layers one after another, all through the same clip. */
  method DrawLayers(gl: GlTarget, below: seq<Surface>, layers: seq<Surface>, d: Rect)
    requires Proper(d) && Within(d, gl.Output()) && gl.Clip() == d
    requires forall s :: s in layers ==> !Iconified(s)
    requires forall p :: Contains(d, p) ==> gl.canvas(p) == Paint(below, p)
    modifies gl`canvas
    ensures forall p :: gl.canvas(p) == if Contains(d, p) then Paint(below + layers, p) else old(gl.canvas)(p)
  {
    var i := 0;
    assert below + layers[..0] == below;
    while i < |layers|
      invariant 0 <= i <= |layers|
      invariant gl.Clip() == d
      invariant forall p :: gl.canvas(p) == if Contains(d, p) then Paint(below + layers[..i], p) else old(gl.canvas)(p)
    {
      assert layers[i] in layers;
      assert (below + layers)[..|below| + i] == below + layers[..i];
      assert (below + layers)[..|below| + i + 1] == below + layers[..i + 1];
      gl.Draw(layers[i]);
      forall p ensures gl.canvas(p) == if Contains(d, p) then Paint(below + layers[..i + 1], p) else old(gl.canvas)(p) {
        PaintStep(below + layers, |below| + i, p);
      }
      i := i + 1;
    }
    assert layers[..i] == layers;
  }

  /** Repaint one damage rectangle. */
  method PaintRect(gl: GlTarget, scene: Scene, d: Rect)
    requires Proper(d) && Within(d, gl.Output())
    modifies gl
    ensures forall p :: gl.canvas(p) == if Contains(d, p) then FullRepaint(scene, p) else old(gl.canvas)(p)
  {
    gl.BeginDamage(d);
    if scene.locked {
      // Only the lock surface and the cursor may show.
      var lock := LockLayer(scene.lock);
      if lock.Some? && OutputRect(lock.value).Some? && Intersects(OutputRect(lock.value).value, d) {
        DrawLayers(gl, [], Optional(lock), d);
      } else {
        forall p | Contains(d, p) ensures Paint(Optional(lock), p) == BLACK {
        }
      }
    } else {
      DrawWindows(gl, scene.windows, d);
      gl.SetDamage(d);
    }
    DrawLayers(gl, Body(scene), Overlays(scene), d);
  }

  /** The repaint loop over the consumed damage: every damaged pixel becomes that
      of a full repaint, also where rectangles overlap, and no other pixel
      changes. */
  method PaintDamage(gl: GlTarget, scene: Scene, damage: seq<Rect>)
    requires AllProper(damage) && AllWithin(damage, gl.Output())
    modifies gl
    ensures forall p :: gl.canvas(p) == if Covered(damage, p) then FullRepaint(scene, p) else old(gl.canvas)(p)
  {
    var di := 0;
    while di < |damage|
      invariant 0 <= di <= |damage|
      invariant forall p :: gl.canvas(p) ==
                            if Covered(damage[..di], p) then FullRepaint(scene, p) else old(gl.canvas)(p)
    {
      PaintRect(gl, scene, damage[di]);
      forall p ensures Covered(damage[..di + 1], p) <==> Covered(damage[..di], p) || Contains(damage[di], p) {
        CoveredConcat(damage[..di], [damage[di]], p);
        assert damage[..di + 1] == damage[..di] + [damage[di]];
        assert Covered([damage[di]], p) <==> Contains([damage[di]][0], p);
      }
      di := di + 1;
    }
    assert damage[..di] == damage;
  }
}
