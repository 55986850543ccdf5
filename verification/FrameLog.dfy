/** The frames published so far, and what buffers, damage history and pending
    damage must say about them for an incremental repaint to be complete. */
module FrameLog {
  import opened Geometry
  import opened Texture
  import opened Scene
  import opened Damage
  import OutputQueue

  type Image = Point -> Colour

  /** A published frame: its pixels, the scene it shows, and the pixels at which it
      may not show it. */
  datatype Frame = Frame(image: Image, scene: Scene, missed: iset<Point>)

  /** An output pixel whose changes were all recorded as damage, or painted since. */
  ghost predicate Tracked(output: Rect, missed: iset<Point>, p: Point) {
    Contains(output, p) && p !in missed
  }

  ghost predicate Shows(image: Image, scene: Scene, output: Rect, missed: iset<Point>) {
    forall p :: Tracked(output, missed, p) ==> image(p) == FullRepaint(scene, p)
  }

  /** Every frame ever published shows its scene. */
  ghost predicate LogTrue(frames: seq<Frame>, output: Rect) {
    forall k :: 0 <= k < |frames| ==> Shows(frames[k].image, frames[k].scene, output, frames[k].missed)
  }

  /** Every buffer holds the frame its queue slot says it holds. */
  ghost predicate BuffersTrue(frames: seq<Frame>, slots: seq<OutputQueue.Slot>, buffers: seq<Image>)
  {
    |slots| == |buffers| &&
    forall k :: 0 <= k < |slots| && slots[k].lastFrame > 0 ==>
                slots[k].lastFrame <= |frames| && buffers[k] == frames[slots[k].lastFrame - 1].image
  }

  /** Ownership changes do not touch what the buffers hold. */
  lemma BuffersStillTrue(frames: seq<Frame>, slots: seq<OutputQueue.Slot>, slots': seq<OutputQueue.Slot>,
                         buffers: seq<Image>)
    requires BuffersTrue(frames, slots, buffers) && |slots'| == |slots|
    requires forall k :: 0 <= k < |slots| ==> slots'[k].lastFrame == slots[k].lastFrame
    ensures BuffersTrue(frames, slots', buffers)
  {
  }

  lemma BuffersExtended(frames: seq<Frame>, slots: seq<OutputQueue.Slot>, buffers: seq<Image>,
                        latest: Frame, index: nat, slot: OutputQueue.Slot)
    requires BuffersTrue(frames, slots, buffers) && index < |slots| && slot.lastFrame == |frames| + 1
    ensures BuffersTrue(frames + [latest], slots[index := slot], buffers[index := latest.image])
  {
  }

  /** The `back`-th latest frame left a pixel as it was in the frame before. */
  ghost predicate Kept(frames: seq<Frame>, back: nat, p: Point)
    requires 0 < back < |frames|
  {
    frames[|frames| - back].image(p) == frames[|frames| - back - 1].image(p)
  }

  /** The remembered damage of a frame covers what that frame changed. */
  ghost predicate HistoryTrue(frames: seq<Frame>, recent: seq<History>, output: Rect) {
    && |recent| <= |frames|
    && (forall i :: 0 <= i < |recent| ==> recent[i].valid)
    && (forall back, p :: 0 < back < |frames| && Contains(output, p) && !Outdated(recent, back, p) ==>
                          Kept(frames, back, p))
  }

  /** Whatever is shown wrongly is recorded as damage. */
  ghost predicate PendingTrue(shown: Image, scene: Scene, damage: seq<Rect>, output: Rect, missed: iset<Point>) {
    forall p :: Tracked(output, missed, p) && !Covered(damage, p) ==> shown(p) == FullRepaint(scene, p)
  }

  /** The pixels a repaint of these rectangles draws. */
  ghost function Painted(damage: seq<Rect>): iset<Point> {
    iset p | Covered(damage, p)
  }

  ghost predicate CoversAll(damage: seq<Rect>, output: Rect) {
    forall p :: Contains(output, p) ==> Covered(damage, p)
  }

  lemma {:induction false} KeptAcross(frames: seq<Frame>, p: Point, a: nat)
    requires 0 < a <= |frames|
    requires forall back :: 0 < back < a ==> Kept(frames, back, p)
    ensures frames[|frames| - 1].image(p) == frames[|frames| - a].image(p)
  {
    if a > 1 {
      KeptAcross(frames, p, a - 1);
      assert Kept(frames, a - 1, p);
    }
  }

  /** A buffer of known age holds the latest frame at every pixel that no frame
      since its own has damaged. */
  lemma BufferCurrent(frames: seq<Frame>, recent: seq<History>, slots: seq<OutputQueue.Slot>, buffers: seq<Image>,
                      output: Rect, index: nat, age: nat, p: Point)
    requires BuffersTrue(frames, slots, buffers) && HistoryTrue(frames, recent, output)
    requires |recent| <= HISTORY_SLOTS && index < |slots|
    requires age > 0 && age == OutputQueue.Age(|frames|, slots[index])
    requires Contains(output, p) && forall back :: 0 < back < age ==> !Outdated(recent, back, p)
    ensures |frames| > 0 && buffers[index](p) == frames[|frames| - 1].image(p)
  {
    if age == OutputQueue.UINT_MAX {
      assert Outdated(recent, HISTORY_SLOTS + 1, p);
      assert false;
    }
    KeptAcross(frames, p, age);
  }

  lemma HistoryExtended(frames: seq<Frame>, recent: seq<History>, output: Rect, latest: Frame, rects: seq<Rect>)
    requires HistoryTrue(frames, recent, output)
    requires forall p :: |frames| > 0 && Contains(output, p) && !Covered(rects, p) ==>
                         latest.image(p) == frames[|frames| - 1].image(p)
    ensures HistoryTrue(frames + [latest], Remember(History(true, rects), recent), output)
  {
    var frames', recent' := frames + [latest], Remember(History(true, rects), recent);
    forall back, p | 0 < back < |frames'| && Contains(output, p) && !Outdated(recent', back, p)
      ensures Kept(frames', back, p)
    {
      if back > 1 {
        assert recent'[back - 1] == recent[back - 2];
        assert !Outdated(recent, back - 1, p);
        assert Kept(frames, back - 1, p);
      }
    }
  }

  lemma LogExtended(frames: seq<Frame>, output: Rect, latest: Frame)
    requires LogTrue(frames, output) && Shows(latest.image, latest.scene, output, latest.missed)
    ensures LogTrue(frames + [latest], output)
  {
  }
}
