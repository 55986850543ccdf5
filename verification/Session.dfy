/** The session as one value: what each event does to what is drawn, shown and owned,
    and what that means along a run. */
module Session {
  import opened Options
  import opened Geometry
  import opened Texture
  import opened Scene
  import opened Damage
  import opened FrameLog
  import opened Events
  import OutputQueue

  /** The scene, the damage recorded for it, the pixels given up, what is on screen and
      whether the client's own buffer is, the frames published and the buffers' owners. */
  datatype View = View(scene: Scene, output: Rect, damaged: seq<Rect>, missed: iset<Point>, direct: bool,
                       hasPresented: bool, presented: Image, frames: seq<Frame>,
                       slots: seq<OutputQueue.Slot>, count: nat)

  /** A lone opaque window over the whole output, nothing drawn above it. */
  predicate CanDirect(scene: Scene, output: Rect) {
    && !scene.locked && scene.icon.None? && scene.cursor.None?
    && |scene.windows| == 1
    && var s := scene.windows[0];
       && s.role == Toplevel && !s.minimized && s.fills && s.rect == output
       && s.hasBuffer && s.viewport == UNSET && !s.blends
  }

  /** What a lone window shows. */
  function DirectImage(scene: Scene): Image
    requires scene.windows != []
  {
    var s := scene.windows[0];
    p => ColourAt(s, p)
  }

  /** The client's buffer alone is what a full repaint would show. */
  lemma DirectShows(scene: Scene, output: Rect, missed: iset<Point>)
    requires CanDirect(scene, output)
    ensures Shows(DirectImage(scene), scene, output, missed)
  {
    var s := scene.windows[0];
    assert Layers(scene) == [s];
    assert [s][..0] == [];
    forall p | Contains(output, p) ensures ColourAt(s, p) == FullRepaint(scene, p) {
      assert Hits(s, p);
    }
  }

  // ---- a repaint -----------------------------------------------------------------------------

  /** Rendered into, left behind by a client that went, or still sampled by one. */
  ghost predicate Owned(s: OutputQueue.Slot) {
    s.acquired || s.abandoned || s.pendingClients != {}
  }

  /** No buffer of the rotation is free. */
  ghost predicate AllTaken(slots: seq<OutputQueue.Slot>, count: nat, rotate: bool) {
    forall k :: 0 <= k < (if rotate || count == 0 then count else 1) && k < |slots| ==> Owned(slots[k])
  }

  /** A buffer of the rotation was free. */
  ghost predicate WasFree(slots: seq<OutputQueue.Slot>, count: nat, rotate: bool, index: nat) {
    index < count && index < |slots| && (rotate || index == 0) && !Owned(slots[index])
  }

  /** The client's own buffer was scanned out. */
  ghost predicate Scanned(v: View, w: View) {
    && w.direct && w.hasPresented && v.scene.windows != [] && w.presented == DirectImage(v.scene)
    && Shows(w.presented, w.scene, w.output, w.missed) && w.missed == iset{}
    && w.frames == v.frames && w.damaged == [] && w.slots == v.slots
  }

  /** Nothing happened but that the damage is kept, or grows. */
  ghost predicate Waited(v: View, w: View) {
    && !w.direct && w.hasPresented == v.hasPresented && w.presented == v.presented && w.missed == v.missed
    && w.frames == v.frames && Grows(v.damaged, w.damaged) && w.slots == v.slots
  }

  /** One frame was published in a free buffer, which its consumers own now; what had
      been damaged is painted. */
  ghost predicate Drew(v: View, w: View, clients: set<nat>, seqno: nat, index: nat) {
    && !w.direct && w.hasPresented && w.damaged == []
    && Shows(w.presented, w.scene, w.output, w.missed) && w.missed * Painted(v.damaged) == iset{}
    && w.frames == v.frames + [Frame(w.presented, w.scene, w.missed)]
    && index < |v.slots| && w.slots == v.slots[index := OutputQueue.Slot(false, false, clients, 0, |w.frames|, seqno)]
  }

  /** There was nothing to draw: the screen was right already. */
  ghost predicate Skipped(v: View, w: View, index: nat) {
    && !w.direct && v.damaged == [] && w.damaged == []
    && v.hasPresented && w.hasPresented && w.presented == v.presented && w.missed == v.missed
    && Shows(w.presented, w.scene, w.output, w.missed)
    && w.frames == v.frames
    && index < |v.slots| && w.slots == v.slots[index := v.slots[index].(releaseWait := 0)]
  }

  /** A repaint scans out when it may, waits exactly when every buffer is owned, and else
      draws a frame, or skips it if no damage is recorded. */
  ghost predicate Repainted(v: View, w: View, rotate: bool, direct: bool, clients: set<nat>, seqno: nat) {
    if direct && CanDirect(v.scene, v.output) then Scanned(v, w)
    else if AllTaken(v.slots, v.count, rotate) then Waited(v, w)
    else
      exists index ::
        && WasFree(v.slots, v.count, rotate, index)
        && (Drew(v, w, clients, seqno, index) || Skipped(v, w, index))
  }

  // ---- the consumers' side ------------------------------------------------------------------------

  /** Only the very frame that the client still owns is released. */
  ghost predicate Released(was: seq<OutputQueue.Slot>, now: seq<OutputQueue.Slot>, count: nat, index: nat, client: nat,
                           seqno: nat) {
    |now| == |was| &&
    forall k :: 0 <= k < |was| ==>
                if k == index && k < count && seqno != 0 && client in was[k].pendingClients && was[k].lastSeq == seqno then
                  now[k] == was[k].(pendingClients := was[k].pendingClients - {client},
                                    releaseWait := if seqno > was[k].releaseWait then seqno else was[k].releaseWait)
                else now[k] == was[k]
  }

  /** What a leaving client owned is abandoned, not free. */
  ghost predicate Abandoned(was: seq<OutputQueue.Slot>, now: seq<OutputQueue.Slot>, count: nat, client: nat) {
    |now| == |was| &&
    forall k :: 0 <= k < |was| ==>
                if k < count && client in was[k].pendingClients then
                  now[k] == was[k].(abandoned := true, pendingClients := was[k].pendingClients - {client})
                else now[k] == was[k]
  }

  ghost predicate Recovered(was: seq<OutputQueue.Slot>, now: seq<OutputQueue.Slot>, count: nat) {
    |now| == |was| &&
    forall k :: 0 <= k < |was| ==> now[k] == if k < count then was[k].(abandoned := false) else was[k]
  }

  ghost predicate Owners(v: View, w: View, e: Event) {
    match e
    case EvRelease(index, client, seqno) => Released(v.slots, w.slots, v.count, index, client, seqno)
    case EvDrop(client) => Abandoned(v.slots, w.slots, v.count, client)
    case EvRecover => Recovered(v.slots, w.slots, v.count)
    case _ => w.slots == v.slots
  }

  /** A request changes neither the screen nor what was published, and every pixel that
      was given up stays so. */
  ghost predicate Requested(v: View, w: View, e: Event) {
    && w.frames == v.frames && w.hasPresented == v.hasPresented && w.presented == v.presented && w.direct == v.direct
    && v.missed <= w.missed && Owners(v, w, e)
    && (e.EvDeclare? ==> Holds(w.damaged, e.rects, w.output))
  }

  // ---- one event -----------------------------------------------------------------------------------

  /** Whatever the screen shows wrongly is damaged or given up. */
  ghost predicate Accountable(v: View) {
    v.hasPresented ==> PendingTrue(v.presented, v.scene, v.damaged, v.output, v.missed)
  }

  ghost predicate Sound(v: View) {
    Proper(v.output) && v.count <= |v.slots| && Accountable(v)
  }

  /** What one event does, all of it. */
  ghost predicate Served(v: View, w: View, e: Event) {
    && Sound(v) && w.output == v.output && w.count == v.count && w.scene == Apply(v.scene, v.output, e)
    && w.missed <= v.missed + LostBy(v.scene, v.output, e)
    && if e.EvRepaint? then Repainted(v, w, e.rotate, e.direct, e.clients, e.seqno) else Requested(v, w, e)
  }

  /** A run: the states in between, each what its event makes of the one before. */
  ghost predicate Trace(views: seq<View>, events: seq<Event>) {
    && |views| == |events| + 1 && (forall k :: 0 <= k < |views| ==> Sound(views[k]))
    && forall k :: 0 <= k < |events| ==> Served(views[k], views[k + 1], events[k])
  }

  lemma OneMore(views: seq<View>, events: seq<Event>, i: nat, w: View)
    requires i < |events| && |views| == i + 1 && Trace(views, events[..i])
    requires Served(views[i], w, events[i]) && Sound(w)
    ensures Trace(views + [w], events[..i + 1])
  {
    var more, es := views + [w], events[..i + 1];
    forall k | 0 <= k < i + 1
      ensures Served(more[k], more[k + 1], es[k])
    {
      if k < i {
        assert more[k + 1] == views[k + 1] && more[k] == views[k] && es[k] == events[..i][k];
      }
    }
  }

  /** The scene after the first events of a run. */
  lemma {:induction false} SceneAlong(views: seq<View>, events: seq<Event>, k: nat)
    requires Trace(views, events) && k <= |events|
    ensures views[k].output == views[0].output
    ensures views[k].scene == ApplyAll(views[0].scene, views[0].output, events[..k])
    decreases k
  {
    if k == 0 {
      assert events[..0] == [];
    } else {
      SceneAlong(views, events, k - 1);
      assert Served(views[k - 1], views[k], events[k - 1]);
      ApplyOneMore(views[0].scene, views[0].output, events, k - 1);
    }
  }

  lemma {:induction false} ApplyOneMore(scene: Scene, output: Rect, events: seq<Event>, k: nat)
    requires k < |events|
    ensures ApplyAll(scene, output, events[..k + 1]) == Apply(ApplyAll(scene, output, events[..k]), output, events[k])
    decreases |events|
  {
    var next := Apply(scene, output, events[0]);
    if k == 0 {
      assert events[..1] == [events[0]] && events[..0] == [];
      assert [events[0]][1..] == [];
    } else {
      ApplyOneMore(next, output, events[1..], k - 1);
      assert events[..k + 1][1..] == events[1..][..k] && events[..k][1..] == events[1..][..k - 1];
    }
  }

  lemma {:induction false} LostOneMore(scene: Scene, output: Rect, events: seq<Event>, k: nat)
    requires Proper(output) && k < |events|
    ensures LostIn(scene, output, events[..k + 1]) ==
            LostIn(scene, output, events[..k]) + LostBy(ApplyAll(scene, output, events[..k]), output, events[k])
    decreases |events|
  {
    var next := Apply(scene, output, events[0]);
    if k == 0 {
      assert events[..1] == [events[0]] && events[..0] == [];
      assert [events[0]][1..] == [];
    } else {
      LostOneMore(next, output, events[1..], k - 1);
      assert events[..k + 1][1..] == events[1..][..k] && events[..k][1..] == events[1..][..k - 1];
      UnionOver(LostBy(scene, output, events[0]), LostIn(next, output, events[1..][..k - 1]),
                LostBy(ApplyAll(next, output, events[1..][..k - 1]), output, events[k]));
    }
  }

  lemma UnionOver<T>(a: iset<T>, b: iset<T>, c: iset<T>)
    ensures a + (b + c) == a + b + c
  {
  }

  /** What is given up along a run is no more than its events lose. */
  lemma {:induction false} MissedAlong(views: seq<View>, events: seq<Event>, k: nat)
    requires Trace(views, events) && k <= |events|
    ensures views[k].missed <= views[0].missed + LostIn(views[0].scene, views[0].output, events[..k])
    decreases k
  {
    if k == 0 {
      assert events[..0] == [];
    } else {
      MissedAlong(views, events, k - 1);
      SceneAlong(views, events, k - 1);
      assert Served(views[k - 1], views[k], events[k - 1]);
      LostOneMore(views[0].scene, views[0].output, events, k - 1);
      UnionOver(views[0].missed, LostIn(views[0].scene, views[0].output, events[..k - 1]),
                LostBy(views[k - 1].scene, views[0].output, events[k - 1]));
    }
  }

  lemma {:induction false} LostGrows(scene: Scene, output: Rect, events: seq<Event>, k: nat)
    requires Proper(output) && k <= |events|
    ensures LostIn(scene, output, events[..k]) <= LostIn(scene, output, events)
    decreases |events| - k
  {
    if k == |events| {
      assert events[..k] == events;
    } else {
      LostOneMore(scene, output, events, k);
      LostGrows(scene, output, events, k + 1);
    }
  }

  /** The frames from the `from`-th on are wrong at most at `pixels`. */
  ghost predicate MissedWithin(frames: seq<Frame>, from: nat, pixels: iset<Point>) {
    forall k :: from <= k < |frames| ==> frames[k].missed <= pixels
  }

  /** A step publishes at most one frame, that of the moment. */
  lemma FrameStep(v: View, w: View, e: Event)
    requires Served(v, w, e)
    ensures w.frames == v.frames ||
            (w.frames == v.frames + [Frame(w.presented, w.scene, w.missed)]
             && Shows(w.presented, w.scene, w.output, w.missed))
  {
  }

  /** Frames are only added along a run, none wrong at more than was given up before or
      is lost on the way. */
  lemma {:induction false} FramesAlong(views: seq<View>, events: seq<Event>, k: nat)
    requires Trace(views, events) && k <= |events|
    ensures views[0].frames <= views[k].frames
    ensures MissedWithin(views[k].frames, |views[0].frames|,
                         views[0].missed + LostIn(views[0].scene, views[0].output, events))
    decreases k
  {
    if k > 0 {
      FramesAlong(views, events, k - 1);
      FrameStep(views[k - 1], views[k], events[k - 1]);
      MissedAlong(views, events, k);
      LostGrows(views[0].scene, views[0].output, events, k);
    }
  }

  // ---- along a run ------------------------------------------------------------------------------------

  /** The repaint can go on screen: directly, or through a buffer that is free. */
  ghost predicate CanRepaint(v: View, e: Event) {
    e.EvRepaint? && ((e.direct && CanDirect(v.scene, v.output)) || !AllTaken(v.slots, v.count, e.rotate))
  }

  /** The screen shows the scene at every output pixel that is not given up. */
  ghost predicate OnScreen(v: View) {
    v.hasPresented && forall p :: Contains(v.output, p) && p !in v.missed ==> v.presented(p) == FullRepaint(v.scene, p)
  }

  /** After a repaint that can go on screen, the screen shows the scene, nothing damaged
      is left, and no pixel that was damaged before counts as given up; a frame was
      published if anything was damaged and the buffer was not scanned out. */
  lemma RepaintShows(v: View, w: View, e: Event)
    requires Served(v, w, e) && CanRepaint(v, e)
    ensures OnScreen(w) && w.scene == v.scene && w.damaged == []
    ensures w.missed <= v.missed && w.missed * Painted(v.damaged) == iset{}
    ensures v.damaged != [] && !(e.direct && CanDirect(v.scene, v.output)) ==>
              w.frames == v.frames + [Frame(w.presented, w.scene, w.missed)]
  {
    assert LostBy(v.scene, v.output, e) == iset{};
    assert OnScreen(w) by {
      assert forall p :: Tracked(w.output, w.missed, p) <==> Contains(w.output, p) && p !in w.missed;
    }
    if w.damaged == [] && v.damaged == [] {
      assert Painted(v.damaged) == iset{};
    }
  }

  /** In every run, after each repaint that can go on screen the screen shows the scene
      that the events so far have made, at every output pixel not given up. */
  lemma RunShows(views: seq<View>, events: seq<Event>, k: nat)
    requires Trace(views, events) && k < |events| && CanRepaint(views[k], events[k])
    ensures OnScreen(views[k + 1])
    ensures views[k + 1].scene == ApplyAll(views[0].scene, views[0].output, events[..k + 1])
    ensures views[k + 1].missed * Painted(views[k].damaged) == iset{} && views[k + 1].damaged == []
  {
    SceneAlong(views, events, k + 1);
    assert Served(views[k], views[k + 1], events[k]);
    RepaintShows(views[k], views[k + 1], events[k]);
  }

  /** Direct scan-out is for one opaque fullscreen window alone, with nothing above it. */
  lemma DirectExactly(scene: Scene, output: Rect)
    ensures CanDirect(scene, output) <==>
            && |scene.windows| == 1 && !scene.locked && scene.icon == None && scene.cursor == None
            && var s := scene.windows[0];
               && s.role == Toplevel && !s.minimized && s.hasBuffer && !s.blends
               && s.fills && s.rect == output && s.viewport == Viewport(None, None)
  {
  }
}
