/** The compositor's repaint cycle over every run: requests record damage, each
    repaint renders only what the acquired buffer lacks, and what is presented is
    the full repaint of the current scene but at pixels whose change a request left
    unrecorded. */
module Compositor {
  import opened Options
  import opened Geometry
  import opened Texture
  import opened Scene
  import opened ZOrder
  import opened Painter
  import opened Damage
  import opened FrameLog
  import opened SceneChange
  import opened Stretch
  import opened Requests
  import opened RequestLoss
  import opened Events
  import opened Session
  import OutputQueue

  /** What one repaint did. */
  datatype Outcome =
    | Direct                // the client's own buffer was presented
    | NoBuffer              // every swapchain buffer is still owned; retry later
    | Unchanged             // nothing to draw, the screen is already right
    | Published(slot: nat)  // a swapchain buffer was rendered and presented

  /** Of the next frame, exactly the painted pixels and those at which the frame
      before was right already are right. */
  ghost predicate RightExactly(image: Image, frames: seq<Frame>, scene: Scene, painted: seq<Rect>, output: Rect) {
    forall p :: Contains(output, p) ==>
                (image(p) == FullRepaint(scene, p) <==>
                 Covered(painted, p) || (|frames| > 0 && frames[|frames| - 1].image(p) == FullRepaint(scene, p)))
  }

  /** The consumers own the slot now, which holds this frame. */
  ghost predicate HandedOver(was: seq<OutputQueue.Slot>, now: seq<OutputQueue.Slot>, index: nat, clients: set<nat>,
                             seqno: nat, frame: nat) {
    && index < |was|
    && now == was[index := OutputQueue.Slot(false, false, clients, was[index].releaseWait, frame, seqno)]
  }

  /** What a repaint of this outcome left. */
  ghost predicate Done(outcome: Outcome, v: View, w: View, rotate: bool, clients: set<nat>, seqno: nat) {
    match outcome
    case Direct => Scanned(v, w)
    case NoBuffer => Waited(v, w)
    case Unchanged => exists index :: WasFree(v.slots, v.count, rotate, index) && Skipped(v, w, index)
    case Published(slot) => WasFree(v.slots, v.count, rotate, slot) && Drew(v, w, clients, seqno, slot)
  }

  /** A slot held the newest frame. */
  ghost predicate LatestSlot(v: View, index: nat) {
    index < |v.slots| && 0 < v.slots[index].lastFrame == |v.frames|
  }

  /** A repaint with a free buffer is done once its slot is handed over or given back. */
  lemma DoneInSlot(v: View, taken: seq<OutputQueue.Slot>, w: View, outcome: Outcome, rotate: bool, index: nat,
                   clients: set<nat>, seqno: nat)
    requires WasFree(v.slots, v.count, rotate, index) && (outcome == Published(index) || outcome == Unchanged)
    requires taken == v.slots[index := v.slots[index].(acquired := true, releaseWait := 0)]
    requires !w.direct && w.hasPresented && Shows(w.presented, w.scene, w.output, w.missed) && w.damaged == []
    requires outcome.Published? ==>
               && w.missed * Painted(v.damaged) == iset{} && w.frames == v.frames + [Frame(w.presented, w.scene, w.missed)]
               && HandedOver(taken, w.slots, index, clients, seqno, |w.frames|)
    requires outcome.Unchanged? ==>
               && v.hasPresented && w.presented == v.presented && w.missed == v.missed && w.frames == v.frames
               && v.damaged == [] && w.slots == taken[index := taken[index].(acquired := false)]
    ensures Done(outcome, v, w, rotate, clients, seqno)
  {
    if outcome.Unchanged? {
      assert v.slots[index].(releaseWait := 0) == taken[index].(acquired := false);
      assert w.slots == v.slots[index := v.slots[index].(releaseWait := 0)];
      assert Skipped(v, w, index);
    }
  }

  class Compositor {
    var scene: Scene
    const damage: OutputDamage
    const queue: OutputQueue.Queue
    const buffers: array<Image>
    var directActive: bool
    ghost var frames: seq<Frame>
    ghost var hasPresented: bool
    ghost var presented: Image
    ghost var missed: iset<Point>

    ghost function Now(): View
      reads this`scene, this`missed, this`directActive, this`hasPresented, this`presented, this`frames,
            damage`width, damage`height, damage`count, damage.rects, queue`count, queue.slots
      requires damage.count <= damage.rects.Length
    {
      View(scene, damage.Output(), damage.List(), missed, directActive, hasPresented, presented, frames,
           queue.slots[..], queue.count)
    }

    ghost predicate Parts()
      reads this`scene, damage, damage.rects, damage.history, queue, queue.slots
    {
      && damage.Valid() && queue.Valid()
      && buffers.Length == OutputQueue.MAX_BUFFERS
      && Stacked(scene.windows) && |scene.windows| <= MAX_SURFACES
    }

    /** The swapchain side: frame log, buffer contents and damage history. */
    ghost predicate Swapchain()
      reads this`frames, damage`width, damage`height, damage`serial, damage.history, queue, queue.slots, buffers
      requires damage.history.Length == HISTORY_SLOTS
    {
      && |frames| == queue.frame
      && LogTrue(frames, damage.Output())
      && BuffersTrue(frames, queue.slots[..], buffers[..])
      && HistoryTrue(frames, damage.Recent(), damage.Output())
    }

    /** The screen side: what is presented, and the damage recorded since. */
    ghost predicate Screen()
      reads this`scene, this`frames, this`missed, this`hasPresented, this`presented, this`directActive,
            damage`width, damage`height, damage`serial, damage`count, damage.rects
      requires damage.count <= damage.rects.Length
    {
      && (|frames| > 0 ==> hasPresented)
      && (hasPresented ==> PendingTrue(presented, scene, damage.List(), damage.Output(), missed))
      && (!directActive && damage.serial > 0 ==> |frames| > 0 && presented == frames[|frames| - 1].image)
      && (!directActive && damage.serial == 0 && |frames| > 0 ==> CoversAll(damage.List(), damage.Output()))
    }

    ghost predicate Valid()
      reads this, damage, damage.rects, damage.history, queue, queue.slots, buffers
    {
      Parts() && Swapchain() && Screen()
    }

    constructor (width: nat, height: nat, scale: Scale, bufferCount: nat)
      requires 0 < width && 0 < height && bufferCount <= OutputQueue.MAX_BUFFERS
      ensures Valid() && scene == Scene([], None, None, false, None, scale)
      ensures fresh(damage) && fresh(damage.rects) && fresh(damage.history)
      ensures fresh(queue) && fresh(queue.slots) && fresh(buffers)
      ensures damage.width == width && damage.height == height && missed == iset{} && frames == []
      ensures !directActive && !hasPresented && damage.List() == [] && !damage.valid && queue.count == bufferCount
      ensures forall k :: 0 <= k < OutputQueue.MAX_BUFFERS ==> queue.slots[k] == OutputQueue.FREE_SLOT
    {
      scene := Scene([], None, None, false, None, scale);
      damage := new OutputDamage(width, height);
      queue := new OutputQueue.Queue(bufferCount);
      buffers := new Image[OutputQueue.MAX_BUFFERS](_ => (_ => BLACK));
      directActive, frames, hasPresented, missed := false, [], false, iset{};
      presented := _ => BLACK;
    }

    // ---- repaint -------------------------------------------------------------------

    /** Restoring the composited output after a direct interlude starts afresh:
        the history is forgotten and everything is damaged. */
    method LeaveDirect()
      requires Valid()
      modifies this`directActive, damage`serial, damage.history,
               damage`valid, damage`coarse, damage`count, damage`bounds, damage.rects
      ensures Valid() && !directActive && Grows(old(damage.List()), damage.List())
      ensures !old(directActive) ==> damage.List() == old(damage.List())
    {
      if directActive {
        directActive := false;
        damage.HistoryReset();
        damage.AddFull();
      }
    }

    /** The damage handed to the renderer covers everything the buffer lacks. */
    ghost predicate ReadyToRender(index: nat, age: nat)
      reads this`frames, damage`width, damage`height, damage`serial, damage`count, damage.rects, damage.history, queue.slots
      requires damage.count <= damage.rects.Length && damage.history.Length == HISTORY_SLOTS
    {
      && index < queue.slots.Length && age == OutputQueue.Age(|frames|, queue.slots[index])
      && (age == 0 ==> CoversAll(damage.List(), damage.Output()))
      && (forall back, p :: 0 < back < age && Contains(damage.Output(), p) && Outdated(damage.Recent(), back, p) ==>
                            Covered(damage.List(), p))
    }

    /** An image of the current scene is ready, drawn from `pending` damage over
        the latest frame's pixels. */
    ghost predicate Rendered(image: Image, pending: seq<Rect>)
      reads this, damage, damage.rects, damage.history, queue, queue.slots, buffers
    {
      && Parts() && Swapchain()
      && damage.lastValid && damage.lastRects == pending && damage.List() == []
      && |pending| > 0 && AllProper(pending) && AllWithin(pending, damage.Output())
      && Shows(image, scene, damage.Output(), missed - Painted(pending))
      && LatestOutside(image, pending)
    }

    /** Outside `pending` the image is the latest frame, if there is one. */
    ghost predicate LatestOutside(image: Image, pending: seq<Rect>)
      reads this`frames, damage`width, damage`height
    {
      |frames| > 0 ==>
        forall p :: Contains(damage.Output(), p) && !Covered(pending, p) ==> image(p) == frames[|frames| - 1].image(p)
    }

    /** Rendering the recorded damage into the acquired buffer completes it. */
    method Render(index: nat, age: nat) returns (image: Image)
      requires Valid() && !directActive && damage.valid && ReadyToRender(index, age)
      modifies damage`valid, damage`coarse, damage`count, damage`lastValid, damage`lastRects
      ensures Rendered(image, old(damage.List()))
      ensures RightExactly(image, frames, scene, old(damage.List()), damage.Output())
    {
      BufferComplete(index, age);
      var plan, box := damage.Consume();
      image := PaintBuffer(buffers[index], plan);
      RenderedExactly(image, plan);
    }

    /** Painted pixels are right, all others are those of the frame before. */
    lemma RenderedExactly(image: Image, pending: seq<Rect>)
      requires Shows(image, scene, damage.Output(), missed - Painted(pending)) && LatestOutside(image, pending)
      requires |frames| == 0 ==> CoversAll(pending, damage.Output())
      ensures RightExactly(image, frames, scene, pending, damage.Output())
    {
      forall p | Contains(damage.Output(), p)
        ensures image(p) == FullRepaint(scene, p) <==>
                Covered(pending, p) || (|frames| > 0 && frames[|frames| - 1].image(p) == FullRepaint(scene, p))
      {
        if Covered(pending, p) {
          assert Tracked(damage.Output(), missed - Painted(pending), p);
        }
      }
    }

    /** Draw the planned damage over a buffer that is complete besides. */
    method PaintBuffer(content: Image, plan: seq<Rect>) returns (image: Image)
      requires AllProper(plan) && AllWithin(plan, damage.Output())
      requires PendingTrue(content, scene, plan, damage.Output(), missed) && LatestOutside(content, plan)
      ensures Shows(image, scene, damage.Output(), missed - Painted(plan)) && LatestOutside(image, plan)
    {
      var gl := new GlTarget(damage.width, damage.height, content);
      PaintDamage(gl, scene, plan);
      image := gl.canvas;
    }

    lemma BufferComplete(index: nat, age: nat)
      requires Valid() && !directActive && ReadyToRender(index, age)
      ensures PendingTrue(buffers[index], scene, damage.List(), damage.Output(), missed)
      ensures LatestOutside(buffers[index], damage.List())
      ensures |frames| == 0 ==> CoversAll(damage.List(), damage.Output())
    {
      forall p | Contains(damage.Output(), p) && !Covered(damage.List(), p)
        ensures |frames| > 0 && buffers[index](p) == frames[|frames| - 1].image(p)
        ensures p !in missed ==> buffers[index](p) == FullRepaint(scene, p)
      {
        BufferCurrent(frames, damage.Recent(), queue.slots[..], buffers[..], damage.Output(), index, age, p);
        PendingSinceLastFrame();
      }
    }

    /** The pending damage covers what changed since the last swapchain frame. */
    lemma PendingSinceLastFrame()
      requires Valid() && !directActive
      ensures |frames| > 0 ==> PendingTrue(frames[|frames| - 1].image, scene, damage.List(), damage.Output(), missed)
    {
    }

    /** A slot holds the newest frame and waits for these consumers only. */
    ghost predicate LentTo(index: nat, clients: set<nat>)
      reads queue, queue.slots
    {
      && index < queue.slots.Length && queue.slots[index].lastFrame == queue.frame
      && !queue.slots[index].acquired && !queue.slots[index].abandoned && queue.slots[index].pendingClients == clients
    }

    method StoreBuffer(index: nat, ghost latest: Frame, image: Image, clients: set<nat>, seqno: nat)
      requires queue.Valid() && buffers.Length == OutputQueue.MAX_BUFFERS && index < queue.count
      requires |frames| == queue.frame && BuffersTrue(frames, queue.slots[..], buffers[..])
      requires latest.image == image
      modifies queue`frame, queue.slots, buffers
      ensures queue.Valid() && queue.frame == old(queue.frame) + 1
      ensures BuffersTrue(frames + [latest], queue.slots[..], buffers[..])
      ensures buffers[index] == image && LentTo(index, clients)
      ensures HandedOver(old(queue.slots[..]), queue.slots[..], index, clients, seqno, queue.frame)
    {
      buffers[index] := image;
      queue.Publish(index, clients, seqno);
      BuffersExtended(frames, old(queue.slots[..]), old(buffers[..]), latest, index, queue.slots[index]);
      assert queue.slots[..] == old(queue.slots[..])[index := queue.slots[index]];
      assert buffers[..] == old(buffers[..])[index := image];
    }

    /** Hand the rendered buffer to the consumers and log the frame; what was
        painted is accounted for again. */
    method Publish(index: nat, image: Image, clients: set<nat>, seqno: nat, ghost pending: seq<Rect>)
      requires Rendered(image, pending) && !directActive && index < queue.count
      modifies this`frames, this`presented, this`hasPresented, this`missed,
               damage`serial, damage.history, queue`frame, queue.slots, buffers
      ensures Valid() && missed == old(missed) - Painted(pending)
      ensures hasPresented && presented == image && buffers[index] == image && LentTo(index, clients)
      ensures frames == old(frames) + [Frame(image, scene, missed)]
      ensures HandedOver(old(queue.slots[..]), queue.slots[..], index, clients, seqno, |frames|)
    {
      missed := missed - Painted(pending);
      ghost var latest := Frame(image, scene, missed);
      StoreBuffer(index, latest, image, clients, seqno);
      LogFrame(latest, pending);
      Present(image);
    }

    /** The image goes on screen. */
    method Present(image: Image)
      requires Parts() && Swapchain() && Shows(image, scene, damage.Output(), missed)
      requires directActive || (|frames| > 0 && image == frames[|frames| - 1].image && damage.serial > 0)
      modifies this`presented, this`hasPresented
      ensures Valid() && hasPresented && presented == image
    {
      presented, hasPresented := image, true;
    }

    /** The frame joins the log, its damage the history. */
    method LogFrame(ghost latest: Frame, ghost pending: seq<Rect>)
      requires damage.Valid() && damage.lastValid && damage.lastRects == pending
      requires |pending| > 0 && AllProper(pending) && AllWithin(pending, damage.Output())
      requires LogTrue(frames, damage.Output()) && HistoryTrue(frames, damage.Recent(), damage.Output())
      requires Shows(latest.image, latest.scene, damage.Output(), latest.missed) && LatestOutside(latest.image, pending)
      modifies this`frames, damage`serial, damage.history
      ensures damage.Valid() && damage.serial > 0 && frames == old(frames) + [latest]
      ensures LogTrue(frames, damage.Output()) && HistoryTrue(frames, damage.Recent(), damage.Output())
    {
      HistoryExtended(frames, damage.Recent(), damage.Output(), latest, pending);
      LogExtended(frames, damage.Output(), latest);
      damage.HistoryRecord();
      frames := frames + [latest];
    }

    method RenderAndPublish(index: nat, age: nat, clients: set<nat>, seqno: nat)
      requires Valid() && !directActive && damage.valid && index < queue.count && ReadyToRender(index, age)
      modifies this`frames, this`presented, this`hasPresented, this`missed, queue`frame, queue.slots, buffers,
               damage`valid, damage`coarse, damage`count, damage`lastValid, damage`lastRects, damage`serial, damage.history
      ensures Valid() && hasPresented && Shows(presented, scene, damage.Output(), missed)
      ensures missed == old(missed) - Painted(old(damage.List()))
      ensures index < buffers.Length && buffers[index] == presented && LentTo(index, clients)
      ensures frames == old(frames) + [Frame(presented, scene, missed)]
      ensures damage.lastRects == old(damage.List()) && damage.List() == [] && !directActive
      ensures RightExactly(presented, old(frames), scene, damage.lastRects, damage.Output())
      ensures HandedOver(old(queue.slots[..]), queue.slots[..], index, clients, seqno, |frames|)
    {
      ghost var pending := damage.List();
      var image := Render(index, age);
      Publish(index, image, clients, seqno, pending);
    }

    /** No buffer of the rotation is free. */
    ghost predicate AllOwned(rotate: bool)
      reads queue, queue.slots
      requires queue.Valid()
    {
      AllTaken(queue.slots[..], queue.count, rotate)
    }

    /** The buffer at `index` was free and has been taken since `v`. */
    ghost predicate TakenSince(v: View, rotate: bool, index: nat)
      reads this`frames, this`hasPresented, this`presented, this`missed, damage`count, damage.rects, queue.slots
      requires damage.count <= damage.rects.Length
    {
      && AllProper(v.damaged) && Grows(v.damaged, damage.List())
      && WasFree(v.slots, v.count, rotate, index)
      && queue.slots[..] == v.slots[index := v.slots[index].(acquired := true, releaseWait := 0)]
      && v.frames == frames && v.hasPresented == hasPresented && v.presented == presented && v.missed == missed
      && (!v.direct && LatestSlot(v, index) ==> damage.List() == v.damaged)
    }

    /** A buffer is in hand, and the damage is up to its age. */
    ghost predicate Armed(v: View, rotate: bool, index: nat, age: nat)
      reads this, damage, damage.rects, damage.history, queue, queue.slots, buffers
    {
      && Valid() && !directActive && index < queue.count && ReadyToRender(index, age) && TakenSince(v, rotate, index)
      && v.scene == scene && v.output == damage.Output() && v.count == queue.count
    }

    /** Every buffer is owned, and the session waits. */
    ghost predicate Idle(v: View)
      reads this, damage, damage.rects, damage.history, queue, queue.slots, buffers
    {
      Valid() && v.scene == scene && v.output == damage.Output() && v.count == queue.count && Waited(v, Now())
    }

    /** Take a buffer and bring the damage up to its age. */
    method AcquireOutput(rotate: bool, ghost v: View) returns (ok: bool, index: nat, age: nat)
      requires Valid() && v == Now()
      modifies this`directActive, damage`serial, damage.history, queue`cursor, queue.slots,
               damage`valid, damage`coarse, damage`count, damage`bounds, damage.rects
      ensures ok <==> !AllTaken(v.slots, v.count, rotate)
      ensures if ok then Armed(v, rotate, index, age) else Idle(v)
    {
      LeaveDirect();
      ok, index, age := AcquireSlot(rotate);
      if ok {
        Replay(index, age);
      }
    }

    /** Bring the damage up to the age of an acquired buffer. */
    method Replay(index: nat, age: nat)
      requires Valid() && !directActive && index < queue.count && age == OutputQueue.Age(|frames|, queue.slots[index])
      modifies damage`valid, damage`coarse, damage`count, damage`bounds, damage.rects
      ensures Valid() && Grows(old(damage.List()), damage.List()) && ReadyToRender(index, age)
      ensures age == 1 ==> damage.List() == old(damage.List())
    {
      damage.HistoryApply(age);
    }

    /** A slot still holds the frame it held. */
    ghost predicate SameFrame(was: seq<OutputQueue.Slot>, now: seq<OutputQueue.Slot>, index: nat) {
      index < |was| && index < |now| && now[index].lastFrame == was[index].lastFrame
    }

    /** A free slot of the rotation is taken, or none. */
    ghost predicate TakenFrom(was: seq<OutputQueue.Slot>, now: seq<OutputQueue.Slot>, ok: bool, index: nat, rotate: bool)
      reads queue`count
    {
      if ok then
        WasFree(was, queue.count, rotate, index) && now == was[index := was[index].(acquired := true, releaseWait := 0)]
      else now == was
    }

    method AcquireSlot(rotate: bool) returns (ok: bool, index: nat, age: nat)
      requires Valid()
      modifies queue`cursor, queue.slots
      ensures Valid()
      ensures ok ==> index < queue.count && age == OutputQueue.Age(|frames|, queue.slots[index])
      ensures ok ==> SameFrame(old(queue.slots[..]), queue.slots[..], index)
      ensures ok <==> !old(AllOwned(rotate))
      ensures TakenFrom(old(queue.slots[..]), queue.slots[..], ok, index, rotate)
    {
      var wait;
      ok, index, age, wait := queue.Acquire(rotate);
      ghost var was := old(queue.slots[..]);
      assert ok ==> WasFree(was, queue.count, rotate, index);
      assert ok ==> queue.slots[..] == was[index := was[index].(acquired := true, releaseWait := 0)];
      assert !ok ==> queue.slots[..] == was;
      BuffersStillTrue(frames, old(queue.slots[..]), queue.slots[..], buffers[..]);
    }

    method CancelSlot(index: nat)
      requires Valid() && index < queue.count
      modifies queue.slots
      ensures Valid()
      ensures queue.slots[..] == old(queue.slots[..])[index := old(queue.slots[index]).(acquired := false)]
    {
      queue.Cancel(index);
      assert queue.slots[..] == old(queue.slots[..])[index := old(queue.slots[index]).(acquired := false)];
      BuffersStillTrue(frames, old(queue.slots[..]), queue.slots[..], buffers[..]);
    }

    /** Scan out the client's buffer; nothing is rendered, and all of it is right. */
    method PresentDirect()
      requires Valid() && CanDirect(scene, damage.Output())
      modifies this`presented, this`hasPresented, this`directActive, this`missed,
               damage`valid, damage`coarse, damage`count, damage`lastValid, damage`lastRects
      ensures Valid() && directActive && hasPresented && Shows(presented, scene, damage.Output(), missed)
      ensures missed == iset{} && presented == DirectImage(scene) && damage.List() == []
    {
      var consumed, box := damage.Consume();
      missed := iset{};
      DirectShows(scene, damage.Output(), missed);
      directActive := true;
      Present(DirectImage(scene));
    }

    /** With no damage even after the replay, the screen is right as it is. */
    lemma NothingToDraw(index: nat, age: nat)
      requires Valid() && !directActive && !damage.valid && ReadyToRender(index, age)
      ensures hasPresented && Shows(presented, scene, damage.Output(), missed)
    {
      assert damage.List() == [] && Contains(damage.Output(), Point(0, 0));
      assert Covered([], Point(0, 0)) ==> false;
    }

    /** A slot holds the newest frame. */
    ghost predicate LatestIn(index: nat)
      reads this`frames, queue.slots
    {
      index < queue.slots.Length && 0 < queue.slots[index].lastFrame == |frames|
    }

    /** One repaint.  Unless no buffer was free, what is presented afterwards is
        the full repaint of the current scene at every tracked pixel, and what had
        been damaged is tracked again. */
    method RecompositeNow(rotate: bool, directAllowed: bool, clients: set<nat>, seqno: nat) returns (outcome: Outcome)
      requires Valid()
      modifies this, damage, damage.rects, damage.history, queue, queue.slots, buffers
      ensures Valid()
      ensures scene == old(scene) && missed <= old(missed) && damage.Output() == old(damage.Output())
      ensures outcome.Published? || outcome.Direct? ==> missed * Painted(old(damage.List())) == iset{}
      ensures !outcome.NoBuffer? ==> hasPresented && Shows(presented, scene, damage.Output(), missed)
      ensures outcome.Published? ==>
                && outcome.slot < buffers.Length && buffers[outcome.slot] == presented
                && frames == old(frames) + [Frame(presented, scene, missed)]
      ensures outcome.Published? ==>
                && Grows(old(damage.List()), damage.lastRects) && damage.List() == [] && !directActive
                && LentTo(outcome.slot, clients) && outcome.slot < queue.count
                && RightExactly(presented, old(frames), scene, damage.lastRects, damage.Output())
      ensures outcome.Unchanged? ==>
              old(hasPresented) && presented == old(presented) && !old(damage.valid) && !damage.valid
      ensures queue.count == old(queue.count)
      ensures outcome.Published? && !old(directActive) && old(LatestIn(outcome.slot)) ==>
              damage.lastRects == old(damage.List())
      ensures !outcome.Published? ==> frames == old(frames)
      ensures outcome.NoBuffer? ==> hasPresented == old(hasPresented) && presented == old(presented)
      ensures outcome.Direct? <==> directAllowed && CanDirect(scene, damage.Output())
      ensures outcome.NoBuffer? <==> !(directAllowed && CanDirect(scene, damage.Output())) && old(AllOwned(rotate))
      ensures Done(outcome, old(Now()), Now(), rotate, clients, seqno)
    {
      outcome := Repaint(rotate, directAllowed, clients, seqno, Now());
    }

    method Repaint(rotate: bool, directAllowed: bool, clients: set<nat>, seqno: nat, ghost v: View)
      returns (outcome: Outcome)
      requires Valid() && v == Now()
      modifies this, damage, damage.rects, damage.history, queue, queue.slots, buffers
      ensures Valid() && missed <= v.missed && scene == v.scene && damage.Output() == v.output && queue.count == v.count
      ensures outcome.Published? ==> InBuffer(v, outcome.slot, clients)
      ensures outcome.Direct? <==> directAllowed && CanDirect(v.scene, v.output)
      ensures outcome.NoBuffer? <==> !outcome.Direct? && AllTaken(v.slots, v.count, rotate)
      ensures Done(outcome, v, Now(), rotate, clients, seqno)
    {
      if directAllowed && CanDirect(scene, damage.Output()) {
        PresentDirect();
        return Direct;
      }
      outcome := Composite(rotate, clients, seqno, v);
    }

    /** A repaint through the swapchain. */
    method Composite(rotate: bool, clients: set<nat>, seqno: nat, ghost v: View) returns (outcome: Outcome)
      requires Valid() && v == Now()
      modifies this`directActive, this`frames, this`presented, this`hasPresented, this`missed,
               damage`valid, damage`coarse, damage`count, damage`bounds, damage`lastValid, damage`lastRects, damage`serial,
               damage.rects, damage.history, queue`cursor, queue`frame, queue.slots, buffers
      ensures outcome.NoBuffer? <==> AllTaken(v.slots, v.count, rotate)
      ensures if outcome.NoBuffer? then Idle(v) else Finished(outcome, v, rotate, clients, seqno)
    {
      var ok, index, age := AcquireOutput(rotate, v);
      if !ok {
        return NoBuffer;
      }
      outcome := CompositeInto(rotate, index, age, clients, seqno, v);
    }

    /** The frame is in its buffer; its damage is that of `v`, and no more if the buffer
        held the latest frame. */
    ghost predicate InBuffer(v: View, slot: nat, clients: set<nat>)
      reads this`frames, this`scene, this`presented, damage`width, damage`height, damage`lastRects, queue, queue.slots,
            buffers
    {
      && slot < buffers.Length && buffers[slot] == presented && LentTo(slot, clients) && slot < queue.count
      && Grows(v.damaged, damage.lastRects) && (!v.direct && LatestSlot(v, slot) ==> damage.lastRects == v.damaged)
      && RightExactly(presented, v.frames, scene, damage.lastRects, damage.Output())
    }

    /** A repaint with a buffer in hand is over. */
    ghost predicate Finished(outcome: Outcome, v: View, rotate: bool, clients: set<nat>, seqno: nat)
      reads this, damage, damage.rects, damage.history, queue, queue.slots, buffers
    {
      && Valid() && (outcome.Published? || outcome.Unchanged?)
      && scene == v.scene && damage.Output() == v.output && queue.count == v.count && missed <= v.missed
      && Done(outcome, v, Now(), rotate, clients, seqno) && (outcome.Published? ==> InBuffer(v, outcome.slot, clients))
    }

    method CompositeInto(rotate: bool, index: nat, age: nat, clients: set<nat>, seqno: nat, ghost v: View)
      returns (outcome: Outcome)
      requires Armed(v, rotate, index, age)
      modifies this`frames, this`presented, this`hasPresented, this`missed, queue`frame, queue.slots, buffers,
               damage`valid, damage`coarse, damage`count, damage`lastValid, damage`lastRects, damage`serial,
               damage.history
      ensures Finished(outcome, v, rotate, clients, seqno)
    {
      outcome := Finish(index, age, clients, seqno, v.damaged);
      DoneInSlot(v, old(queue.slots[..]), Now(), outcome, rotate, index, clients, seqno);
    }

    /** With a buffer in hand: give it back if nothing is damaged, else render. */
    method Finish(index: nat, age: nat, clients: set<nat>, seqno: nat, ghost before: seq<Rect>) returns (outcome: Outcome)
      requires Valid() && !directActive && index < queue.count && ReadyToRender(index, age)
      requires AllProper(before) && Grows(before, damage.List())
      modifies this`frames, this`presented, this`hasPresented, this`missed, queue`frame, queue.slots, buffers,
               damage`valid, damage`coarse, damage`count, damage`lastValid, damage`lastRects, damage`serial,
               damage.history
      ensures Valid() && hasPresented && Shows(presented, scene, damage.Output(), missed) && missed <= old(missed)
      ensures outcome == if old(damage.valid) then Published(index) else Unchanged
      ensures outcome.Unchanged? ==>
                && old(hasPresented) && presented == old(presented) && missed == old(missed) && frames == old(frames)
                && before == [] && !damage.valid && damage.List() == [] && !directActive
                && queue.slots[..] == old(queue.slots[..])[index := old(queue.slots[index]).(acquired := false)]
      ensures outcome.Published? ==> HandedOver(old(queue.slots[..]), queue.slots[..], index, clients, seqno, |frames|)
      ensures outcome.Published? ==>
                && missed * Painted(before) == iset{}
                && index < buffers.Length && buffers[index] == presented && LentTo(index, clients)
                && frames == old(frames) + [Frame(presented, scene, missed)]
                && damage.lastRects == old(damage.List()) && Grows(before, damage.lastRects)
                && damage.List() == [] && !directActive
                && RightExactly(presented, old(frames), scene, damage.lastRects, damage.Output())
    {
      if !damage.valid {
        if before != [] {
          StillDamaged(before, damage.List());
        }
        GiveBack(index, age);
        return Unchanged;
      }
      RenderMore(index, age, clients, seqno, before);
      return Published(index);
    }

    /** Render the damage, which holds at least `before`. */
    method RenderMore(index: nat, age: nat, clients: set<nat>, seqno: nat, ghost before: seq<Rect>)
      requires Valid() && !directActive && damage.valid && index < queue.count && ReadyToRender(index, age)
      requires Grows(before, damage.List())
      modifies this`frames, this`presented, this`hasPresented, this`missed, queue`frame, queue.slots, buffers,
               damage`valid, damage`coarse, damage`count, damage`lastValid, damage`lastRects, damage`serial, damage.history
      ensures Valid() && hasPresented && Shows(presented, scene, damage.Output(), missed)
      ensures missed <= old(missed) && missed * Painted(before) == iset{}
      ensures index < buffers.Length && buffers[index] == presented && LentTo(index, clients)
      ensures frames == old(frames) + [Frame(presented, scene, missed)]
      ensures damage.lastRects == old(damage.List()) && Grows(before, damage.lastRects) && damage.List() == []
      ensures !directActive
      ensures RightExactly(presented, old(frames), scene, damage.lastRects, damage.Output())
      ensures HandedOver(old(queue.slots[..]), queue.slots[..], index, clients, seqno, |frames|)
    {
      PaintedMore(before, damage.List(), missed);
      RenderAndPublish(index, age, clients, seqno);
    }

    /** The buffer is not needed: the screen is right. */
    method GiveBack(index: nat, age: nat)
      requires Valid() && !directActive && !damage.valid && ReadyToRender(index, age) && index < queue.count
      modifies queue.slots
      ensures Valid() && hasPresented && Shows(presented, scene, damage.Output(), missed)
      ensures queue.slots[..] == old(queue.slots[..])[index := old(queue.slots[index]).(acquired := false)]
    {
      NothingToDraw(index, age);
      CancelSlot(index);
    }

    // ---- recording damage and accepting scene changes ----------------------------------

    /** `output_damage_add_surface`: damage what a surface covers on screen. */
    method AddSurface(s: Surface)
      requires Valid()
      modifies damage`valid, damage`coarse, damage`count, damage`bounds, damage.rects
      ensures Valid()
      ensures SurfaceDamaged(s, damage.List(), damage.Output()) && Grows(old(damage.List()), damage.List())
    {
      var r := OutputRect(s);
      if r.Some? {
        damage.AddPx(r.value.x0, r.value.y0, r.value.x1 - r.value.x0, r.value.y1 - r.value.y0);
      }
    }

    method AddEverything()
      requires Valid()
      modifies damage`valid, damage`coarse, damage`count, damage`bounds, damage.rects
      ensures Valid() && CoversAll(damage.List(), damage.Output())
    {
      damage.AddFull();
    }

    /** The scene changes only where damage is already recorded, or at pixels that
        are given up as lost. */
    method Accept(next: Scene, ghost lost: iset<Point>)
      requires Valid()
      requires Stacked(next.windows) && |next.windows| <= MAX_SURFACES
      requires ChangeDamaged(scene, next, damage.List(), damage.Output(), missed + lost)
      modifies this`scene, this`missed
      ensures Valid() && scene == next && missed == old(missed) + lost
    {
      ghost var list := damage.List();
      if hasPresented {
        assert PendingTrue(presented, scene, list, damage.Output(), missed + lost);
        PendingAfter(presented, scene, next, list, list, damage.Output(), missed + lost);
      }
      scene, missed := next, missed + lost;
    }

    // ---- window operations ---------------------------------------------------------------

    /** Raise one surface to the top of its band. */
    method RaiseSurface(id: nat)
      requires Valid()
      modifies this`scene, this`missed, damage`valid, damage`coarse, damage`count, damage`bounds, damage.rects
      ensures Valid() && missed == old(missed)
      ensures scene == old(scene).(windows := RaiseOne(old(scene).windows, id))
    {
      var idx := FindIndex(scene.windows, id);
      if idx.Some? {
        var moved, ws := ShiftUp(scene.windows, idx.value);
        if moved {
          AddSurface(scene.windows[idx.value]);
          RaisedStacked(scene.windows, idx.value);
          RaiseChanges(scene, idx.value, damage.List(), damage.Output(), missed);
          assert missed + iset{} == missed;
          Accept(scene.(windows := ws), iset{});
        }
      }
    }

    /** Raise a surface, then its transient toplevels, parents first. */
    method RaiseChildren(id: nat, depth: nat)
      requires Valid()
      modifies this`scene, this`missed, damage`valid, damage`coarse, damage`count, damage`bounds, damage.rects
      ensures Valid() && missed == old(missed)
      ensures scene == old(scene).(windows := RaiseTree(old(scene).windows, id, depth))
      decreases depth, 1
    {
      RaiseTreeIs(scene.windows, id, depth);
      RaiseSurface(id);
      RaiseBelow(id, depth);
    }

    method RaiseBelow(id: nat, depth: nat)
      requires Valid()
      modifies this`scene, this`missed, damage`valid, damage`coarse, damage`count, damage`bounds, damage.rects
      ensures Valid() && missed == old(missed)
      ensures scene == old(scene).(windows := RaisedBelow(old(scene).windows, id, depth))
      decreases depth, 0, 1
    {
      if depth == 0 {
        RaisedBelowIs(scene.windows, id, depth);
        return;
      }
      RaiseAllKids(id, depth);
    }

    method RaiseAllKids(id: nat, depth: nat)
      requires Valid() && depth > 0
      modifies this`scene, this`missed, damage`valid, damage`coarse, damage`count, damage`bounds, damage.rects
      ensures Valid() && missed == old(missed)
      ensures scene == old(scene).(windows := RaisedBelow(old(scene).windows, id, depth))
      decreases depth, 0, 0
    {
      RaisedBelowIs(scene.windows, id, depth);
      var kids := CollectKids(scene.windows, id);
      RaiseKids(kids, depth - 1);
    }

    method RaiseKids(kids: seq<nat>, depth: nat)
      requires Valid()
      modifies this`scene, this`missed, damage`valid, damage`coarse, damage`count, damage`bounds, damage.rects
      ensures Valid() && missed == old(missed)
      ensures scene == old(scene).(windows := RaiseAll(old(scene).windows, kids, depth))
      decreases depth, 2, 1
    {
      ghost var raised := RaiseAll(scene.windows, kids, depth);
      var i := 0;
      assert kids[0..] == kids;
      while i < |kids|
        invariant 0 <= i <= |kids|
        invariant Valid() && missed == old(missed)
        invariant scene == old(scene).(windows := scene.windows)
        invariant RaiseAll(scene.windows, kids[i..], depth) == raised
      {
        RaiseKid(kids, i, depth);
        i := i + 1;
      }
      RaiseAllDone(scene.windows, kids, depth);
    }

    method RaiseKid(kids: seq<nat>, i: nat, depth: nat)
      requires Valid() && i < |kids|
      modifies this`scene, this`missed, damage`valid, damage`coarse, damage`count, damage`bounds, damage.rects
      ensures Valid() && missed == old(missed) && scene == old(scene).(windows := scene.windows)
      ensures RaiseAll(scene.windows, kids[i + 1..], depth) == RaiseAll(old(scene).windows, kids[i..], depth)
      decreases depth, 2, 0
    {
      RaiseAllStep(scene.windows, kids, i, depth);
      RaiseChildren(kids[i], depth);
    }

    /** `surface_raise`. */
    method Raise(id: nat)
      requires Valid()
      modifies this`scene, this`missed, damage`valid, damage`coarse, damage`count, damage`bounds, damage.rects
      ensures Valid() && missed == old(missed)
      ensures scene == old(scene).(windows := RaiseTree(old(scene).windows, id, MAX_SURFACES))
    {
      RaiseChildren(id, MAX_SURFACES);
    }

    method Lower(id: nat)
      requires Valid()
      modifies this`scene, this`missed, damage`valid, damage`coarse, damage`count, damage`bounds, damage.rects
      ensures Valid() && missed == old(missed)
      ensures scene == LowerScene(old(scene), id)
    {
      var idx := FindIndex(scene.windows, id);
      if idx.Some? {
        var moved, ws := ShiftDown(scene.windows, idx.value);
        if moved {
          AddSurface(scene.windows[idx.value]);
          LoweredStacked(scene.windows, idx.value);
          RaiseChanges(scene, idx.value, damage.List(), damage.Output(), missed);
          assert missed + iset{} == missed;
          Accept(scene.(windows := ws), iset{});
        }
      }
    }

    /** First buffer of a shell surface: map it on top of its band and damage it.
        Nothing happens to a mapped surface or a full list. */
    method Map(s: Surface)
      requires Valid()
      modifies this`scene, this`missed, damage`valid, damage`coarse, damage`count, damage`bounds, damage.rects
      ensures Valid() && missed == old(missed)
      ensures scene == MapScene(old(scene), s)
    {
      var idx := FindIndex(scene.windows, s.id);
      AddSurface(s);
      if idx.None? && |scene.windows| < MAX_SURFACES {
        var at := FindBandEnd(scene.windows, Band(s));
        MapStacked(scene.windows, s);
        MapChanges(scene, at, s, damage.List(), damage.Output(), missed);
        assert missed + iset{} == missed;
        Accept(scene.(windows := InsertAt(scene.windows, at, s)), iset{});
      }
    }

    method Unmap(id: nat)
      requires Valid()
      modifies this`scene, this`missed, damage`valid, damage`coarse, damage`count, damage`bounds, damage.rects
      ensures Valid() && missed == old(missed)
      ensures scene == UnmapScene(old(scene), id)
    {
      var idx := FindIndex(scene.windows, id);
      if idx.Some? {
        AddSurface(scene.windows[idx.value]);
        RemoveAtStacked(scene.windows, idx.value);
        RaiseChanges(scene, idx.value, damage.List(), damage.Output(), missed);
        assert missed + iset{} == missed;
        Accept(scene.(windows := RemoveAt(scene.windows, idx.value)), iset{});
      }
    }

    /** Put a changed version of a mapped surface in place, damaged before and after. */
    method ReplaceSurface(i: nat, s: Surface)
      requires Valid() && i < |scene.windows|
      requires s.id == scene.windows[i].id && s.role == scene.windows[i].role
      requires SurfaceDamaged(s, damage.List(), damage.Output())
      requires SurfaceDamaged(scene.windows[i], damage.List(), damage.Output())
      modifies this`scene, this`missed
      ensures Valid() && missed == old(missed)
      ensures scene == old(scene).(windows := old(scene).windows[i := s])
    {
      ReplaceChanges(scene, i, s, damage.List(), damage.Output(), missed);
      ReplacedStacked(scene.windows, i, s);
      assert missed + iset{} == missed;
      Accept(scene.(windows := scene.windows[i := s]), iset{});
    }

    /** Damage a surface as it was and as it will be. */
    method DamageTwice(s: Surface, s': Surface)
      requires Valid()
      modifies damage`valid, damage`coarse, damage`count, damage`bounds, damage.rects
      ensures Valid()
      ensures SurfaceDamaged(s, damage.List(), damage.Output()) && SurfaceDamaged(s', damage.List(), damage.Output())
    {
      AddSurface(s);
      AddSurface(s');
    }

    method SetMinimized(id: nat, minimized: bool)
      requires Valid()
      modifies this`scene, this`missed, damage`valid, damage`coarse, damage`count, damage`bounds, damage.rects
      ensures Valid() && missed == old(missed)
      ensures scene == MinimizeScene(old(scene), id, minimized)
    {
      var idx := FindIndex(scene.windows, id);
      if idx.None? {
        return;
      }
      var s := scene.windows[idx.value];
      if s.role != Toplevel || s.minimized == minimized {
        return;
      }
      DamageTwice(s, s.(minimized := minimized));
      ReplaceSurface(idx.value, s.(minimized := minimized));
    }

    /** Place a mapped surface by request: a popup, a subsurface, a maximised window.
        Both the old and the new place are damaged. */
    method MoveTo(id: nat, x: int, y: int)
      requires Valid()
      modifies this`scene, this`missed, damage`valid, damage`coarse, damage`count, damage`bounds, damage.rects
      ensures Valid() && missed == old(missed)
      ensures scene == MoveScene(old(scene), id, x, y)
    {
      var idx := FindIndex(scene.windows, id);
      if idx.Some? {
        var s := scene.windows[idx.value];
        var s' := s.(rect := MovedRect(s.rect, x, y));
        DamageTwice(s, s');
        ReplaceSurface(idx.value, s');
      }
    }

    /** Record the damage of a request: the dirty texels of a stretched window go
        through the mapping loop, everything else is a list of rectangles. */
    method Record(t: Target, s: Surface, r: Request)
      requires Valid()
      modifies damage`valid, damage`coarse, damage`count, damage`bounds, damage.rects
      ensures Valid() && Grows(old(damage.List()), damage.List())
      ensures var rects := Recorded(t, s, r, scene.scale, damage.Output());
              && NoMoreThan(old(damage.valid), old(damage.bounds), damage.valid, damage.bounds, rects)
              && Holds(damage.List(), rects, damage.Output())
    {
      if t.Window? && r.Commit? && Preserved(s, r.content, r.dirty) && s.fills && s.buffer.w > 0 && s.buffer.h > 0 {
        var w, h := s.buffer.w, s.buffer.h;
        DamageStretched(damage, Rect(0, 0, w, h), Held(r.dirty, w, h));
        return;
      }
      damage.AddAll(Recorded(t, s, r, scene.scale, damage.Output()));
    }

    /** An event that records damage for part of what it changes.  Where the picture
        changes elsewhere, the pixels are lost until something else damages them. */
    method Act(e: Event)
      requires Valid() && Partly(e)
      modifies this`scene, this`missed, damage`valid, damage`coarse, damage`count, damage`bounds, damage.rects
      ensures Valid() && Grows(old(damage.List()), damage.List())
      ensures scene == Apply(old(scene), damage.Output(), e)
      ensures missed == old(missed) + (Changed(old(scene), scene, damage.Output()) - Painted(damage.List()))
      ensures missed <= old(missed) + LostBy(old(scene), damage.Output(), e)
      ensures Holds(damage.List(), Expected(old(scene), damage.Output(), e), damage.Output())
      ensures NoMoreThan(old(damage.valid), old(damage.bounds), damage.valid, damage.bounds,
                         Expected(old(scene), damage.Output(), e))
    {
      RecordFor(e);
      PartlyStacked(scene, damage.Output(), e);
      var next := Apply(scene, damage.Output(), e);
      ghost var lost := Changed(scene, next, damage.Output()) - Painted(damage.List());
      Accept(next, lost);
    }

    method RecordFor(e: Event)
      requires Valid() && Partly(e)
      modifies damage`valid, damage`coarse, damage`count, damage`bounds, damage.rects
      ensures Valid() && Grows(old(damage.List()), damage.List())
      ensures Holds(damage.List(), Expected(scene, damage.Output(), e), damage.Output())
      ensures NoMoreThan(old(damage.valid), old(damage.bounds), damage.valid, damage.bounds,
                         Expected(scene, damage.Output(), e))
    {
      if e.EvRequest? && SurfaceAt(scene, e.target).Some? {
        Record(e.target, SurfaceAt(scene, e.target).value, e.request);
      } else {
        damage.AddAll(Expected(scene, damage.Output(), e));
      }
    }

    /** Damage a client declares ahead of its commit. */
    method Declare(rects: seq<Rect>)
      requires Valid()
      modifies damage`valid, damage`coarse, damage`count, damage`bounds, damage.rects
      ensures Valid() && Grows(old(damage.List()), damage.List())
      ensures Holds(damage.List(), rects, damage.Output())
    {
      damage.AddAll(rects);
    }

    method AddOptional(s: Option<Surface>)
      requires Valid()
      modifies damage`valid, damage`coarse, damage`count, damage`bounds, damage.rects
      ensures Valid()
      ensures OptionalDamaged(s, damage.List(), damage.Output()) && Grows(old(damage.List()), damage.List())
    {
      if s.Some? {
        AddSurface(s.value);
      }
    }

    /** Move, show or hide the cursor drawn into the output. */
    method SetCursor(cursor: Option<Surface>)
      requires Valid()
      modifies this`scene, this`missed, damage`valid, damage`coarse, damage`count, damage`bounds, damage.rects
      ensures Valid() && missed == old(missed) && scene == old(scene).(cursor := cursor)
    {
      AddOptional(scene.cursor);
      AddOptional(cursor);
      OverlayChanges(scene, scene.icon, cursor, damage.List(), damage.Output(), missed);
      assert missed + iset{} == missed;
      Accept(scene.(cursor := cursor), iset{});
    }

    /** Begin, move or end the drag icon. */
    method SetIcon(icon: Option<Surface>)
      requires Valid()
      modifies this`scene, this`missed, damage`valid, damage`coarse, damage`count, damage`bounds, damage.rects
      ensures Valid() && missed == old(missed) && scene == old(scene).(icon := icon)
    {
      AddOptional(scene.icon);
      AddOptional(icon);
      OverlayChanges(scene, icon, scene.cursor, damage.List(), damage.Output(), missed);
      assert missed + iset{} == missed;
      Accept(scene.(icon := icon), iset{});
    }

    /** Lock or unlock the session, with or without its lock surface. */
    method SetLock(locked: bool, keeps: bool)
      requires Valid()
      modifies this`scene, this`missed, damage`valid, damage`coarse, damage`count, damage`bounds, damage.rects
      ensures Valid() && missed == old(missed)
      ensures scene == old(scene).(locked := locked, lock := if keeps then old(scene).lock else None)
    {
      AddEverything();
      assert missed + iset{} == missed;
      Accept(scene.(locked := locked, lock := if keeps then scene.lock else None), iset{});
    }

    /** A new output scale at the same size: everything is placed anew and damaged,
        the buffers and their history stay. */
    method Rescale(scale: Scale, place: Surface -> Rect)
      requires Valid()
      modifies this`scene, this`missed, damage`valid, damage`coarse, damage`count, damage`bounds, damage.rects
      ensures Valid() && missed == old(missed) && scene == RescaledScene(old(scene), scale, place)
    {
      AddEverything();
      assert missed + iset{} == missed;
      Accept(RescaledScene(scene, scale, place), iset{});
    }

    /** A new output size: new buffers, no history, everything damaged. */
    method Resize(width: nat, height: nat, bufferCount: nat, windows: seq<Surface>)
      requires Valid() && 0 < width && 0 < height && bufferCount <= OutputQueue.MAX_BUFFERS
      requires Stacked(windows) && |windows| <= MAX_SURFACES
      modifies this, damage, damage.rects, damage.history, queue, queue.slots
      ensures Valid() && scene == old(scene).(windows := windows)
      ensures damage.Output() == Rect(0, 0, width, height)
      ensures frames == [] && missed == iset{} && CoversAll(damage.List(), damage.Output())
    {
      damage.Resize(width, height);
      queue.Reset(bufferCount);
      directActive, frames, hasPresented, missed := false, [], false, iset{};
      scene := scene.(windows := windows);
      damage.AddFull();
    }

    /** The consumer released a buffer. */
    method ReleaseBuffer(index: nat, client: nat, seqno: nat)
      requires Valid()
      modifies queue.slots
      ensures Valid() && Released(old(queue.slots[..]), queue.slots[..], queue.count, index, client, seqno)
    {
      var ok := queue.Release(index, client, seqno);
      BuffersStillTrue(frames, old(queue.slots[..]), queue.slots[..], buffers[..]);
    }

    method DropClient(client: nat)
      requires Valid()
      modifies queue.slots
      ensures Valid() && Abandoned(old(queue.slots[..]), queue.slots[..], queue.count, client)
    {
      queue.DropClient(client);
      BuffersStillTrue(frames, old(queue.slots[..]), queue.slots[..], buffers[..]);
    }

    method RecoverAbandoned()
      requires Valid()
      modifies queue.slots
      ensures Valid() && Recovered(old(queue.slots[..]), queue.slots[..], queue.count)
    {
      queue.RecoverAbandoned();
      BuffersStillTrue(frames, old(queue.slots[..]), queue.slots[..], buffers[..]);
    }

    /** A repaint request without recorded damage may be skipped: the screen
        already shows the scene. */
    lemma SkippedRequestIsSafe()
      requires Valid() && hasPresented && !damage.valid
      ensures Shows(presented, scene, damage.Output(), missed)
    {
      assert damage.List() == [];
    }

    // ---- whole runs --------------------------------------------------------------------------

    /** One event of a run. */
    method Step(e: Event)
      requires Valid()
      modifies this, damage, damage.rects, damage.history, queue, queue.slots, buffers
      ensures Valid() && Served(old(Now()), Now(), e)
    {
      if e.EvRepaint? {
        StepRepaint(e);
      } else if e.EvRelease? || e.EvDrop? || e.EvRecover? {
        StepQueue(e);
      } else {
        StepRequest(e);
      }
    }

    method StepRepaint(e: Event)
      requires Valid() && e.EvRepaint?
      modifies this, damage, damage.rects, damage.history, queue, queue.slots, buffers
      ensures Valid() && Served(old(Now()), Now(), e)
    {
      NowSound();
      var outcome := Repaint(e.rotate, e.direct, e.clients, e.seqno, Now());
    }

    /** A change of the scene, or of the damage alone. */
    method StepRequest(e: Event)
      requires Valid() && !e.EvRepaint? && !e.EvRelease? && !e.EvDrop? && !e.EvRecover?
      modifies this`scene, this`missed, damage`valid, damage`coarse, damage`count, damage`bounds, damage.rects
      ensures Valid() && Served(old(Now()), Now(), e)
    {
      NowSound();
      ChangeScene(e);
    }

    method ChangeScene(e: Event)
      requires Valid() && !e.EvRepaint? && !e.EvRelease? && !e.EvDrop? && !e.EvRecover?
      modifies this`scene, this`missed, damage`valid, damage`coarse, damage`count, damage`bounds, damage.rects
      ensures Valid() && scene == Apply(old(scene), damage.Output(), e)
      ensures old(missed) <= missed <= old(missed) + LostBy(old(scene), damage.Output(), e)
      ensures e.EvDeclare? ==> Holds(damage.List(), e.rects, damage.Output())
    {
      if Partly(e) {
        Act(e);
      } else if e.EvCursor? || e.EvIcon? || e.EvLock? {
        StepOverlay(e);
      } else if e.EvDeclare? {
        Declare(e.rects);
      } else if e.EvScale? {
        Rescale(e.scale, e.place);
      } else {
        StepWindow(e);
      }
    }

    /** A request that changes a window. */
    method StepWindow(e: Event)
      requires Valid()
      requires e.EvRaise? || e.EvLower? || e.EvMap? || e.EvUnmap? || e.EvMinimize? || e.EvMove?
      modifies this`scene, this`missed, damage`valid, damage`coarse, damage`count, damage`bounds, damage.rects
      ensures Valid() && scene == Apply(old(scene), damage.Output(), e)
      ensures missed == old(missed)
    {
      match e
      case EvRaise(id) => Raise(id);
      case EvLower(id) => Lower(id);
      case EvMap(s) => Map(s);
      case EvUnmap(id) => Unmap(id);
      case EvMinimize(id, m) => SetMinimized(id, m);
      case EvMove(id, x, y) => MoveTo(id, x, y);
    }

    /** An overlay or the lock. */
    method StepOverlay(e: Event)
      requires Valid() && (e.EvCursor? || e.EvIcon? || e.EvLock?)
      modifies this`scene, this`missed, damage`valid, damage`coarse, damage`count, damage`bounds, damage.rects
      ensures Valid() && scene == Apply(old(scene), damage.Output(), e) && missed == old(missed)
    {
      match e
      case EvCursor(c) => SetCursor(c);
      case EvIcon(i) => SetIcon(i);
      case EvLock(locked, keeps) => SetLock(locked, keeps);
    }

    /** The consumer's side of the output queue. */
    method StepQueue(e: Event)
      requires Valid() && (e.EvRelease? || e.EvDrop? || e.EvRecover?)
      modifies queue.slots
      ensures Valid() && Served(old(Now()), Now(), e)
    {
      NowSound();
      ServeConsumer(e);
    }

    method ServeConsumer(e: Event)
      requires Valid() && (e.EvRelease? || e.EvDrop? || e.EvRecover?)
      modifies queue.slots
      ensures Valid() && Owners(old(Now()), Now(), e)
    {
      match e
      case EvRelease(index, client, seqno) => ReleaseBuffer(index, client, seqno);
      case EvDrop(client) => DropClient(client);
      case EvRecover => RecoverAbandoned();
    }

    lemma NowSound()
      requires Valid()
      ensures Sound(Now())
    {
    }

    /** The states of a run. */
    method Follow(events: seq<Event>) returns (ghost views: seq<View>)
      requires Valid()
      modifies this, damage, damage.rects, damage.history, queue, queue.slots, buffers
      ensures Valid() && Trace(views, events) && views[0] == old(Now()) && views[|events|] == Now()
    {
      NowSound();
      views := [Now()];
      assert events[..0] == [];
      for i := 0 to |events|
        invariant Valid() && |views| == i + 1 && views[0] == old(Now()) && views[i] == Now()
        invariant Trace(views, events[..i])
      {
        Step(events[i]);
        NowSound();
        OneMore(views, events, i, Now());
        views := views + [Now()];
      }
      assert events[..|events|] == events;
    }

    /** Any run: the scene evolves as the events say, every frame published on the way
        is a full repaint of the scene at that moment, at every output pixel that no
        request had changed without recording it, and after every repaint for which a
        buffer was free that is what is on screen. */
    method Run(events: seq<Event>) returns (ghost views: seq<View>)
      requires Valid()
      modifies this, damage, damage.rects, damage.history, queue, queue.slots, buffers
      ensures Valid() && scene == ApplyAll(old(scene), damage.Output(), events)
      ensures damage.Output() == old(damage.Output())
      ensures missed <= old(missed) + LostIn(old(scene), damage.Output(), events)
      ensures old(frames) <= frames && LogTrue(frames, damage.Output())
      ensures MissedWithin(frames, |old(frames)|, old(missed) + LostIn(old(scene), damage.Output(), events))
      ensures Trace(views, events) && views[0] == old(Now()) && views[|events|] == Now()
      ensures forall k :: 0 <= k < |events| && CanRepaint(views[k], events[k]) ==> OnScreen(views[k + 1])
      ensures events != [] && CanRepaint(views[|events| - 1], events[|events| - 1]) ==>
                hasPresented && Shows(presented, scene, damage.Output(), missed)
    {
      views := Follow(events);
      var n := |events|;
      assert events[..n] == events;
      SceneAlong(views, events, n);
      MissedAlong(views, events, n);
      FramesAlong(views, events, n);
      forall k | 0 <= k < n && CanRepaint(views[k], events[k]) ensures OnScreen(views[k + 1]) {
        RunShows(views, events, k);
      }
    }

    /** A run of safe requests, from a screen without lost pixels: every frame
        published is the full repaint of its scene at every output pixel, and so is the
        screen after every repaint for which a buffer was free. */
    method RunSafely(events: seq<Event>) returns (ghost views: seq<View>)
      requires Valid() && missed == iset{} && SafeRun(scene, damage.Output(), events)
      modifies this, damage, damage.rects, damage.history, queue, queue.slots, buffers
      ensures Valid() && scene == ApplyAll(old(scene), damage.Output(), events) && missed == iset{}
      ensures old(frames) <= frames && damage.Output() == old(damage.Output())
      ensures forall k, p :: |old(frames)| <= k < |frames| && Contains(damage.Output(), p) ==>
                             frames[k].image(p) == FullRepaint(frames[k].scene, p)
      ensures Trace(views, events) && views[0] == old(Now()) && views[|events|] == Now()
      ensures forall k, p :: 0 <= k < |events| && CanRepaint(views[k], events[k]) && Contains(damage.Output(), p) ==>
                             views[k + 1].hasPresented
                             && views[k + 1].presented(p) == FullRepaint(views[k + 1].scene, p)
    {
      SafeRunLosesNothing(scene, damage.Output(), events);
      views := Run(events);
      AllShown(views, events, damage.Output());
      assert forall k, p :: |old(frames)| <= k < |frames| && Contains(damage.Output(), p) ==>
                            Tracked(damage.Output(), frames[k].missed, p);
    }
  }

  /** Without lost pixels the whole output is right after every repaint. */
  lemma AllShown(views: seq<View>, events: seq<Event>, output: Rect)
    requires Trace(views, events) && views[0].missed == iset{} && output == views[0].output
    requires LostIn(views[0].scene, views[0].output, events) == iset{}
    ensures forall k, p :: 0 <= k < |events| && CanRepaint(views[k], events[k]) && Contains(output, p) ==>
                           views[k + 1].hasPresented && views[k + 1].presented(p) == FullRepaint(views[k + 1].scene, p)
  {
    forall k, p | 0 <= k < |events| && CanRepaint(views[k], events[k]) && Contains(output, p)
      ensures views[k + 1].hasPresented && views[k + 1].presented(p) == FullRepaint(views[k + 1].scene, p)
    {
      RunShows(views, events, k);
      SceneAlong(views, events, k + 1);
      MissedAlong(views, events, k + 1);
      LostGrows(views[0].scene, views[0].output, events, k + 1);
      assert p !in views[k + 1].missed;
    }
  }

  lemma PaintedMore(was: seq<Rect>, now: seq<Rect>, missed: iset<Point>)
    requires Grows(was, now)
    ensures (missed - Painted(now)) * Painted(was) == iset{}
  {
  }

  /** A list that is not empty has not grown into an empty one. */
  lemma StillDamaged(was: seq<Rect>, now: seq<Rect>)
    requires AllProper(was) && Grows(was, now) && was != []
    ensures now != []
  {
    assert Contains(was[0], Point(was[0].x0, was[0].y0));
    assert Covered(now, Point(was[0].x0, was[0].y0));
  }
}
