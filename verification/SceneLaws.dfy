/** What the picture and the stacking order are, said with roles, minimised windows and
    places only: who lies above whom, who is seen, and where a moved surface is. */
module SceneLaws {
  import opened Options
  import opened Geometry
  import opened Texture
  import opened Scene
  import opened ZOrder
  import opened Requests
  import opened Events

  // ---- stacking --------------------------------------------------------------------------------

  /** Everything but a panel of one of the four levels. */
  predicate AmongWindows(r: Role) {
    !(r.Layer? && 0 <= r.level <= 3)
  }

  /** In a sorted list the background lies below the bottom panels, those below the
      windows, those below the top panels, and those below the overlays. */
  lemma LevelsInOrder(ws: seq<Surface>, i: nat, j: nat)
    requires Stacked(ws) && i < |ws| && j < |ws|
    ensures ws[i].role == Layer(0) && (ws[j].role in {Layer(1), Layer(2), Layer(3)} || AmongWindows(ws[j].role)) ==> i < j
    ensures ws[i].role == Layer(1) && (ws[j].role in {Layer(2), Layer(3)} || AmongWindows(ws[j].role)) ==> i < j
    ensures AmongWindows(ws[i].role) && ws[j].role in {Layer(2), Layer(3)} ==> i < j
    ensures ws[i].role == Layer(2) && ws[j].role == Layer(3) ==> i < j
  {
    if j < i {
      assert Band(ws[j]) <= Band(ws[i]);
    }
  }

  /** And nothing else is sorted: two windows, or two panels of one level, may lie
      either way. */
  lemma AnyOrderWithin(a: Surface, b: Surface)
    requires a.id != b.id && (a.role == b.role || (AmongWindows(a.role) && AmongWindows(b.role)))
    ensures Stacked([a, b]) && Stacked([b, a])
  {
  }

  // ---- who is seen ------------------------------------------------------------------------------

  /** A minimised window, and a surface without a buffer, can be left out of the picture. */
  lemma HiddenUnseen(scene: Scene, i: nat, p: Point)
    requires i < |scene.windows|
    requires var s := scene.windows[i]; (s.role == Toplevel && s.minimized) || !s.hasBuffer || !Contains(s.rect, p)
    ensures FullRepaint(scene, p) == FullRepaint(scene.(windows := scene.windows[..i] + scene.windows[i + 1..]), p)
  {
    var ws, s := scene.windows, scene.windows[i];
    var without := scene.(windows := ws[..i] + ws[i + 1..]);
    if !scene.locked {
      assert ws == ws[..i] + [s] + ws[i + 1..];
      assert !Hits(s, p);
      PaintWithout(ws[..i], s, ws[i + 1..], p);
      PaintAbove(Body(scene), Body(without), Overlays(scene), p);
    }
  }

  /** The topmost window at a pixel is what is seen there if it is opaque and neither
      minimised nor under an icon or the cursor. */
  lemma TopSeen(scene: Scene, i: nat, p: Point)
    requires !scene.locked && scene.icon == None && scene.cursor == None && i < |scene.windows|
    requires var s := scene.windows[i];
             s.hasBuffer && Contains(s.rect, p) && !(s.role == Toplevel && s.minimized) && !s.blends
    requires forall j :: i < j < |scene.windows| ==>
                         var t := scene.windows[j];
                         (t.role == Toplevel && t.minimized) || !t.hasBuffer || !Contains(t.rect, p)
    ensures FullRepaint(scene, p) == ColourAt(scene.windows[i], p)
  {
    var ws := scene.windows;
    assert Layers(scene) == ws;
    NothingAbove(ws, i + 1, p);
    PaintStep(ws, i, p);
    assert Hits(ws[i], p);
  }

  lemma {:induction false} NothingAbove(ws: seq<Surface>, n: nat, p: Point)
    requires n <= |ws| && forall j :: n <= j < |ws| ==> !Hits(ws[j], p)
    ensures Paint(ws, p) == Paint(ws[..n], p)
    decreases |ws| - n
  {
    if n == |ws| {
      assert ws[..n] == ws;
    } else {
      NothingAbove(ws, n + 1, p);
      PaintStep(ws, n, p);
    }
  }

  /** While the session is locked only its lock surface, and the cursor, are seen. */
  lemma LockedPicture(scene: Scene, p: Point)
    requires scene.locked && scene.cursor == None
    ensures FullRepaint(scene, p) ==
            if scene.lock.Some? && scene.lock.value.hasBuffer && Contains(scene.lock.value.rect, p)
            then ColourAt(scene.lock.value, p) else BLACK
  {
    if scene.lock.None? {
      assert Layers(scene) == [];
    } else {
      var s := scene.lock.value;
      var t := s.(blends := false, role := RoleNone);
      assert Layers(scene) == [t];
      assert [t][..0] == [];
      assert Paint([t], p) == Over(t, p, BLACK);
      SameColour(s, t, p);
    }
  }

  lemma SameColour(s: Surface, t: Surface, p: Point)
    requires t == s.(blends := t.blends, role := t.role)
    ensures ColourAt(t, p) == ColourAt(s, p)
  {
  }

  // ---- what the events mean -------------------------------------------------------------------------

  /** A surface at another place shows there what it showed where it was. */
  lemma MovedShows(s: Surface, x: int, y: int, p: Point)
    ensures var t, q := s.(rect := MovedRect(s.rect, x, y)), Point(p.x - x + s.rect.x0, p.y - y + s.rect.y0);
            && (Hits(t, p) <==> Hits(s, q)) && ColourAt(t, p) == ColourAt(s, q)
            && t.rect.x0 == x && t.rect.y0 == y
  {
  }

  /** A placement moves that window only, a drag the cursor with it. */
  lemma MoveMeans(scene: Scene, output: Rect, id: nat, x: int, y: int, cx: int, cy: int, i: nat)
    requires IndexOf(scene.windows, id) == Some(i)
    ensures var s, r := scene.windows[i], scene.windows[i].rect;
            var moved := scene.windows[i := s.(rect := Rect(x, y, x + r.x1 - r.x0, y + r.y1 - r.y0))];
            && Apply(scene, output, EvMove(id, x, y)) == scene.(windows := moved)
            && var d := Apply(scene, output, EvDrag(id, x, y, cx, cy));
               && d == scene.(windows := moved, cursor := d.cursor)
               && (scene.cursor.None? ==> d.cursor.None?)
               && (scene.cursor.Some? ==>
                     var o := scene.cursor.value;
                     d.cursor == Some(o.(rect := Rect(cx, cy, cx + o.rect.x1 - o.rect.x0, cy + o.rect.y1 - o.rect.y0))))
  {
  }

  /** The cursor changes hands, ends, or is put elsewhere with the icon; windows and lock
      stay. */
  lemma CursorMeans(scene: Scene, output: Rect, c: Option<Surface>, cx: int, cy: int, ix: int, iy: int)
    ensures Apply(scene, output, EvHandover(c)) == scene.(cursor := c)
    ensures Apply(scene, output, EvCursorGone) == scene.(cursor := None)
    ensures var w := Apply(scene, output, EvWarp(cx, cy, ix, iy));
            && w == scene.(cursor := w.cursor, icon := w.icon)
            && PutAtPlace(scene.cursor, w.cursor, cx, cy) && PutAtPlace(scene.icon, w.icon, ix, iy)
  {
  }

  /** The same surface with its corner there, if there is one. */
  ghost predicate PutAtPlace(was: Option<Surface>, now: Option<Surface>, x: int, y: int) {
    if was.None? then now.None?
    else
      var r := was.value.rect;
      now == Some(was.value.(rect := Rect(x, y, x + r.x1 - r.x0, y + r.y1 - r.y0)))
  }

  /** A lock surface is taken by a locked session that has none; then it is what is seen. */
  lemma LockSurfaceMeans(scene: Scene, output: Rect, s: Surface, p: Point)
    requires scene.locked && scene.lock == None && scene.cursor == None
    ensures FullRepaint(Apply(scene, output, EvLockSurface(s)), p) ==
            if s.hasBuffer && Contains(s.rect, p) then ColourAt(s, p) else BLACK
  {
    LockedPicture(Apply(scene, output, EvLockSurface(s)), p);
  }

  lemma LockSurfaceRefused(scene: Scene, output: Rect, s: Surface)
    requires !scene.locked || scene.lock.Some?
    ensures Apply(scene, output, EvLockSurface(s)) == scene
  {
  }

  /** A request changes the surface it is about, as it asks, and no other. */
  lemma RequestMeans(scene: Scene, output: Rect, t: Target, r: Request)
    ensures var a := Apply(scene, output, EvRequest(t, r));
            match SurfaceAt(scene, t)
            case None => a == scene
            case Some(s) =>
              && SurfaceAt(a, t) == Some(After(s, r, scene.scale, output)) && |a.windows| == |scene.windows|
              && (forall o: Target :: o != t ==> SurfaceAt(a, o) == SurfaceAt(scene, o))
              && a.locked == scene.locked && a.scale == scene.scale
  {
    if SurfaceAt(scene, t).Some? && t.Window? {
      var i := IndexOf(scene.windows, t.id).value;
      var s' := After(scene.windows[i], r, scene.scale, output);
      forall id ensures IndexOf(scene.windows[i := s'], id) == IndexOf(scene.windows, id) {
        SameIndex(scene.windows, scene.windows[i := s'], id);
      }
    }
  }

  /** A request sets what it is for and keeps the rest of the surface. */
  lemma RequestSets(s: Surface, r: Request, outScale: Scale, output: Rect)
    ensures var a := After(s, r, outScale, output);
            && a == s.(hasBuffer := a.hasBuffer, buffer := a.buffer, blends := a.blends, scale := a.scale,
                       viewport := a.viewport, fills := a.fills, rect := a.rect)
            && a.hasBuffer == (r.Commit? || (s.hasBuffer && !r.Detach?))
            && a.buffer == (if r.Commit? then r.content.buffer
                            else if r.Redraw? then s.buffer.(texels := r.texels) else s.buffer)
            && a.blends == (if r.Commit? then r.content.blends
                            else if r.SetOpaque? || r.SetViewport? || r.SetScale? then r.blends else s.blends)
            && a.scale == (if r.SetScale? then r.scale else s.scale)
            && a.viewport == (if r.SetViewport? then r.viewport else s.viewport)
            && a.fills == (if s.role == Toplevel && r.Fullscreen? then true
                           else if s.role == Toplevel && r.Windowed? then false else s.fills)
  {
  }

  /** The least number of logical pixels that hold `size` buffer pixels. */
  predicate HoldsPixels(n: int, size: nat, scale: Scale) {
    n * scale >= size && (n - 1) * scale < size
  }

  /** A logical size: what the viewport asks for, else what it shows, else the buffer's. */
  predicate LogicalSize(n: int, dst: Option<int>, src: Option<nat>, size: nat, scale: Scale) {
    if dst.Some? then n == dst.value
    else if src.Some? then n == src.value / 256
    else HoldsPixels(n, size, scale)
  }

  lemma CeilHolds(size: nat, scale: Scale)
    ensures HoldsPixels(CeilDiv(size, scale), size, scale)
  {
    FloorDiv(size + scale - 1, scale);
    var n := CeilDiv(size, scale);
    Less(n, scale);
  }

  lemma Less(n: int, k: int)
    ensures (n - 1) * k == n * k - k && (n + 1) * k == n * k + k && n * k == k * n && k * (n + 1) == k * n + k
  {
  }

  predicate Places(s: Surface, r: Request) {
    r.Commit? || r.SetViewport? || r.SetScale? || (s.role == Toplevel && (r.Fullscreen? || (r.Windowed? && s.fills)))
  }

  function Width(v: Viewport): Option<int> { if v.dst.Some? then Some(v.dst.value.w) else None }

  function Height(v: Viewport): Option<int> { if v.dst.Some? then Some(v.dst.value.h) else None }

  function ShownWidth(v: Viewport): Option<nat> { if v.src.Some? then Some(v.src.value.w) else None }

  function ShownHeight(v: Viewport): Option<nat> { if v.src.Some? then Some(v.src.value.h) else None }

  /** Where the surface lies then: a fullscreen one on the whole output, any other at its
      corner with its logical size times the output scale. */
  lemma RequestPlaces(s: Surface, r: Request, outScale: Scale, output: Rect) returns (w: int, h: int)
    ensures var a := After(s, r, outScale, output);
            && (!Places(s, r) ==> a.rect == s.rect)
            && (Places(s, r) && a.fills ==> a.rect == output)
            && (Places(s, r) && !a.fills ==>
                  && a.rect.x0 == (if r.Windowed? then r.x else s.rect.x0)
                  && a.rect.y0 == (if r.Windowed? then r.y else s.rect.y0)
                  && a.rect.x1 == a.rect.x0 + w * outScale && a.rect.y1 == a.rect.y0 + h * outScale
                  && LogicalSize(w, Width(a.viewport), ShownWidth(a.viewport), a.buffer.w, a.scale)
                  && LogicalSize(h, Height(a.viewport), ShownHeight(a.viewport), a.buffer.h, a.scale))
  {
    var a := After(s, r, outScale, output);
    w, h := DisplayWidth(a), DisplayHeight(a);
    CeilHolds(a.buffer.w, a.scale);
    CeilHolds(a.buffer.h, a.scale);
  }

  lemma {:induction false} SameIndex(a: seq<Surface>, b: seq<Surface>, id: nat)
    requires |a| == |b| && forall k :: 0 <= k < |a| ==> a[k].id == b[k].id
    ensures IndexOf(a, id) == IndexOf(b, id)
  {
    if a != [] {
      SameIndex(a[1..], b[1..], id);
    }
  }
}
