/** The output damage of the next frame: a bounded rectangle list merged in
    place, the bounding box it falls back to, and the three-frame damage history
    that brings an older swapchain buffer up to date. */
module Damage {
  import opened Options
  import opened Geometry

  const MAX_RECTS := 16
  const HISTORY_SLOTS := 3

  datatype History = History(valid: bool, rects: seq<Rect>)

  /** Everything the first list covers, the second covers too. */
  ghost predicate Grows(a: seq<Rect>, b: seq<Rect>) {
    forall p :: Covered(a, p) ==> Covered(b, p)
  }

  /** `box` is the least rectangle around the list. */
  ghost predicate Bounds(box: Rect, rs: seq<Rect>) {
    AllWithin(rs, box) && forall outer :: AllWithin(rs, outer) ==> Within(box, outer)
  }

  /** The box around the damage grew by no more than the rectangles `rs`. */
  ghost predicate NoMoreThan(was: bool, box: Rect, now: bool, box': Rect, rs: seq<Rect>) {
    forall outer :: (was ==> Within(box, outer)) && AllWithin(rs, outer) && now ==> Within(box', outer)
  }

  lemma NoMoreTwice(was: bool, box: Rect, mid: bool, box1: Rect, now: bool, box2: Rect, rs: seq<Rect>, more: seq<Rect>)
    requires NoMoreThan(was, box, mid, box1, rs) && NoMoreThan(mid, box1, now, box2, more)
    ensures NoMoreThan(was, box, now, box2, rs + more)
  {
    forall outer | (was ==> Within(box, outer)) && AllWithin(rs + more, outer) && now
      ensures Within(box2, outer)
    {
      assert forall k :: 0 <= k < |rs| ==> (rs + more)[k] == rs[k];
      assert forall k :: 0 <= k < |more| ==> (rs + more)[|rs| + k] == more[k];
    }
  }

  /** The list after entry `j` was merged into entry `i` and closed up. */
  function Merged(rs: seq<Rect>, i: nat, j: nat): seq<Rect>
    requires i < |rs| && j < |rs|
  {
    var grown := rs[i := Union(rs[i], rs[j])];
    grown[..j] + grown[j + 1..]
  }

  /** Whether replaying the `back`-th latest frame must bring damage to a pixel:
      either that frame's own damage has it, or the frame is no longer known. */
  ghost predicate Outdated(recent: seq<History>, back: nat, p: Point)
    requires 0 < back
  {
    back > |recent| || !recent[back - 1].valid || Covered(recent[back - 1].rects, p)
  }

  /** The damage holds what the `back - 1` latest frames outdated. */
  ghost predicate CaughtUp(recent: seq<History>, damage: seq<Rect>, output: Rect, back: nat) {
    forall b, p :: 0 < b < back && Contains(output, p) && Outdated(recent, b, p) ==> Covered(damage, p)
  }

  lemma CaughtUpStep(recent: seq<History>, was: seq<Rect>, now: seq<Rect>, output: Rect, back: nat)
    requires 0 < back && CaughtUp(recent, was, output, back) && Grows(was, now)
    requires forall p :: Contains(output, p) && Outdated(recent, back, p) ==> Covered(now, p)
    ensures CaughtUp(recent, now, output, back + 1)
  {
  }

  /** A new latest frame; only the last three are remembered. */
  function Remember(latest: History, recent: seq<History>): seq<History> {
    [latest] + (if |recent| < HISTORY_SLOTS then recent else recent[..HISTORY_SLOTS - 1])
  }

  lemma MergedAt(rs: seq<Rect>, i: nat, j: nat, k: nat)
    requires i < |rs| && j < |rs| && i != j && k < |rs| && k != j
    ensures |Merged(rs, i, j)| == |rs| - 1
    ensures var at := if k < j then k else k - 1;
            Merged(rs, i, j)[at] == if k == i then Union(rs[i], rs[j]) else rs[k]
  {
  }

  lemma MergedGrows(rs: seq<Rect>, i: nat, j: nat)
    requires i < |rs| && j < |rs| && i != j
    ensures Grows(rs, Merged(rs, i, j))
  {
    forall p | Covered(rs, p) ensures Covered(Merged(rs, i, j), p) {
      var k :| 0 <= k < |rs| && Contains(rs[k], p);
      var k' := if k == j then i else k;
      MergedAt(rs, i, j, k');
      assert Contains(Merged(rs, i, j)[if k' < j then k' else k' - 1], p);
    }
  }

  lemma MergedBounds(rs: seq<Rect>, i: nat, j: nat, box: Rect)
    requires i < |rs| && j < |rs| && i != j
    requires AllProper(rs) && Bounds(box, rs)
    ensures AllProper(Merged(rs, i, j)) && Bounds(box, Merged(rs, i, j))
  {
    var m := Merged(rs, i, j);
    forall n | 0 <= n < |m| ensures Proper(m[n]) && Within(m[n], box) {
      MergedAt(rs, i, j, if n < j then n else n + 1);
    }
    forall outer | AllWithin(m, outer) ensures Within(box, outer) {
      forall k | 0 <= k < |rs| ensures Within(rs[k], outer) {
        MergedAt(rs, i, j, if k == j then i else k);
      }
    }
  }

  /** Growing one entry around a new rectangle. */
  lemma ReplacedGrows(rs: seq<Rect>, i: nat, r: Rect, box: Rect)
    requires i < |rs| && Proper(r) && AllProper(rs) && Bounds(box, rs)
    ensures var rs' := rs[i := Union(rs[i], r)];
            Grows(rs + [r], rs') && AllProper(rs') && Bounds(Union(box, r), rs')
  {
    var rs' := rs[i := Union(rs[i], r)];
    forall p | Covered(rs + [r], p) ensures Covered(rs', p) {
      CoveredConcat(rs, [r], p);
      if Covered(rs, p) {
        var k :| 0 <= k < |rs| && Contains(rs[k], p);
        assert Contains(rs'[k], p);
      } else {
        assert Contains(rs'[i], p);
      }
    }
    forall k | 0 <= k < |rs'| ensures Within(rs'[k], Union(box, r)) {
      assert Within(rs[k], box);
    }
    forall outer | AllWithin(rs', outer) ensures Within(Union(box, r), outer) {
      forall k | 0 <= k < |rs| ensures Within(rs[k], outer) {
        assert Within(rs'[k], outer);
      }
      assert Within(rs'[i], outer);
    }
  }

  lemma AppendedBounds(rs: seq<Rect>, r: Rect, box: Rect)
    requires Proper(r) && AllProper(rs) && Bounds(box, rs)
    ensures AllProper(rs + [r]) && Bounds(Union(box, r), rs + [r])
  {
    forall outer | AllWithin(rs + [r], outer) ensures Within(Union(box, r), outer) {
      forall k | 0 <= k < |rs| ensures Within(rs[k], outer) {
        assert (rs + [r])[k] == rs[k];
      }
      assert (rs + [r])[|rs|] == r;
    }
    forall k | 0 <= k < |rs| ensures Within(rs[k], Union(box, r)) {
      assert Within(rs[k], box);
    }
  }

  lemma BoundsCover(rs: seq<Rect>, box: Rect)
    requires AllWithin(rs, box)
    ensures Grows(rs, [box])
  {
    forall p | Covered(rs, p) ensures Covered([box], p) {
      var k :| 0 <= k < |rs| && Contains(rs[k], p);
      assert Within(rs[k], box);
      assert Contains([box][0], p);
    }
  }

  /** No entry reaches into `box` without lying in it. */
  ghost predicate Closed(rs: seq<Rect>, box: Rect) {
    forall q :: q in rs ==> Within(q, box) || !TouchOrOverlap(box, q)
  }

  /** What is not an old entry stays within every box that holds `r` and into which no
      old entry reaches: only what touches, directly or through others, is merged. */
  ghost predicate NoWider(was: seq<Rect>, r: Rect, now: seq<Rect>) {
    forall box, q :: Closed(was, box) && Within(r, box) && q in now ==> q in was || Within(q, box)
  }

  /** The list gives way to its bounding box only when it had before, or is full and
      nothing in it touches the rectangle.  A rectangle that touches nothing becomes an
      entry of its own; else the list does not get longer, and no wider than it must. */
  ghost predicate Precisely(wasCoarse: bool, was: seq<Rect>, r: Rect, coarse: bool, now: seq<Rect>) {
    var touches := exists k :: 0 <= k < |was| && TouchOrOverlap(was[k], r);
    && (coarse <==> wasCoarse || (|was| == 16 && !touches))
    && (!coarse && !touches ==> now == was + [r])
    && (!coarse && touches ==> |now| <= |was| && NoWider(was, r, now))
  }

  /** Entry `at` is the one that grew. */
  ghost predicate OneGrown(was: seq<Rect>, r: Rect, now: seq<Rect>, at: nat) {
    && at < |now| && (forall k :: 0 <= k < |now| && k != at ==> now[k] in was)
    && forall box :: Closed(was, box) && Within(r, box) ==> Within(now[at], box)
  }

  lemma GrownOnce(was: seq<Rect>, r: Rect, i: nat)
    requires i < |was| && TouchOrOverlap(was[i], r)
    ensures OneGrown(was, r, was[i := Union(was[i], r)], i)
  {
    forall box | Closed(was, box) && Within(r, box) ensures Within(Union(was[i], r), box) {
      assert was[i] in was;
    }
  }

  lemma MergedOnce(was: seq<Rect>, r: Rect, now: seq<Rect>, i: nat, j: nat)
    requires OneGrown(was, r, now, i) && j < |now| && i != j && TouchOrOverlap(now[i], now[j])
    ensures OneGrown(was, r, Merged(now, i, j), if j < i then i - 1 else i)
  {
    var m, at := Merged(now, i, j), if j < i then i - 1 else i;
    forall k | 0 <= k < |m| && k != at ensures m[k] in was {
      MergedAt(now, i, j, if k < j then k else k + 1);
    }
    MergedAt(now, i, j, i);
    forall box | Closed(was, box) && Within(r, box) ensures Within(m[at], box) {
      assert now[j] in was;
    }
  }

  lemma OneGrownNoWider(was: seq<Rect>, r: Rect, now: seq<Rect>, at: nat)
    requires OneGrown(was, r, now, at)
    ensures NoWider(was, r, now)
  {
  }

  class OutputDamage {
    var width: nat
    var height: nat
    var valid: bool
    var coarse: bool
    var count: nat
    const rects: array<Rect>
    var bounds: Rect
    var lastValid: bool
    var lastRects: seq<Rect>
    const history: array<History>
    var serial: nat

    function Output(): Rect
      reads this`width, this`height
    {
      Rect(0, 0, width, height)
    }

    /** The damage recorded for the next frame. */
    function List(): seq<Rect>
      reads this`count, rects
      requires count <= rects.Length
    {
      rects[..count]
    }

    ghost predicate ListValid()
      reads this`valid, this`coarse, this`count, this`bounds, this`width, this`height, rects
    {
      && rects.Length == MAX_RECTS
      && 0 < width && 0 < height
      && count <= MAX_RECTS
      && (valid <==> count > 0)
      && AllProper(List())
      && (valid ==> Bounds(bounds, List()) && Within(bounds, Output()))
      && (valid && coarse ==> List() == [bounds])
    }

    ghost predicate HistoryValid()
      reads this`serial, this`width, this`height, history
    {
      && history.Length == HISTORY_SLOTS
      && forall k :: 0 <= k < HISTORY_SLOTS && history[k].valid ==>
                     AllProper(history[k].rects) && AllWithin(history[k].rects, Output())
    }

    ghost predicate Valid()
      reads this, rects, history
    {
      ListValid() && HistoryValid()
    }

    constructor (width: nat, height: nat)
      requires 0 < width && 0 < height
      ensures Valid() && fresh(rects) && fresh(history)
      ensures this.width == width && this.height == height
      ensures !valid && serial == 0 && count == 0
    {
      this.width, this.height := width, height;
      valid, coarse, count := false, false, 0;
      rects := new Rect[MAX_RECTS](_ => Rect(0, 0, 0, 0));
      bounds := Rect(0, 0, 0, 0);
      lastValid, lastRects := false, [];
      history := new History[HISTORY_SLOTS](_ => History(false, []));
      serial := 0;
    }

    /** Replace the list by its bounding box. */
    method SetCoarseUnion(ghost all: seq<Rect>)
      requires valid && rects.Length == MAX_RECTS && 0 < width && 0 < height
      requires AllProper(all) && |all| > 0 && Bounds(bounds, all) && Within(bounds, Output())
      modifies this`coarse, this`count, rects
      ensures ListValid() && List() == [bounds] && coarse
      ensures Grows(all, List())
    {
      coarse := true;
      count := 1;
      rects[0] := bounds;
      assert Within(all[0], bounds);
      assert List() == [bounds];
      BoundsCover(all, bounds);
    }

    /** Merge entry `j` into entry `i`, closing the gap; returns where `i` went. */
    method MergeEntry(i: nat, j: nat) returns (i': nat)
      requires rects.Length == MAX_RECTS && count <= MAX_RECTS
      requires i < count && j < count && i != j
      modifies this`count, rects
      ensures count == old(count) - 1
      ensures List() == Merged(old(List()), i, j)
      ensures i' == (if j < i then i - 1 else i) && i' < count
    {
      ghost var was := List();
      rects[i] := Union(rects[i], rects[j]);
      assert rects[..count] == was[i := Union(was[i], was[j])];
      forall k | j <= k < count - 1 {
        rects[k] := rects[k + 1];
      }
      count := count - 1;
      i' := if j < i then i - 1 else i;
      assert List() == Merged(was, i, j);
    }

    /** Merge every entry that touches entry `at` into it, in one pass. */
    method Absorb(at: nat, ghost was: seq<Rect>, ghost r: Rect)
      requires ListValid() && valid && !coarse && at < count && OneGrown(was, r, List(), at)
      modifies this`count, rects
      ensures ListValid() && Grows(old(List()), List()) && NoWider(was, r, List()) && count <= old(count)
    {
      var i, j := at, 0;
      while j < count
        invariant 0 <= j <= count && 0 <= i < count
        invariant ListValid()
        invariant Grows(old(List()), List()) && OneGrown(was, r, List(), i) && count <= old(count)
        decreases count - j
      {
        if j == i || !TouchOrOverlap(rects[i], rects[j]) {
          j := j + 1;
        } else {
          MergedGrows(List(), i, j);
          MergedBounds(List(), i, j, bounds);
          MergedOnce(was, r, List(), i, j);
          i := MergeEntry(i, j);
        }
      }
      OneGrownNoWider(was, r, List(), i);
    }

    /** Record a damaged rectangle, clipped to the output. */
    method AddPx(x: int, y: int, w: int, h: int)
      requires ListValid()
      modifies this`valid, this`coarse, this`count, this`bounds, rects
      ensures ListValid()
      ensures Grows(old(List()), List())
      ensures forall p :: Contains(Rect(x, y, x + w, y + h), p) && Contains(Output(), p) ==> Covered(List(), p)
      ensures var clipped := Intersection(Rect(x, y, x + w, y + h), Output());
              if w <= 0 || h <= 0 || clipped.None? then
                valid == old(valid) && List() == old(List()) && bounds == old(bounds)
              else
                && valid && bounds == (if old(valid) then Union(old(bounds), clipped.value) else clipped.value)
                && Precisely(old(coarse), old(List()), clipped.value, coarse, List())
    {
      if w <= 0 || h <= 0 {
        return;
      }
      var r := Rect(Max(x, 0), Max(y, 0), Min(x + w, width), Min(y + h, height));
      if r.x1 <= r.x0 || r.y1 <= r.y0 {
        return;
      }
      assert Intersection(Rect(x, y, x + w, y + h), Output()) == Some(r);
      AddRect(r);
    }

    method AddRect(r: Rect)
      requires ListValid() && Proper(r) && Within(r, Output())
      modifies this`valid, this`coarse, this`count, this`bounds, rects
      ensures ListValid() && valid
      ensures Grows(old(List()) + [r], List())
      ensures Grows(old(List()), List()) && forall p :: Contains(r, p) ==> Covered(List(), p)
      ensures bounds == if old(valid) then Union(old(bounds), r) else r
      ensures Precisely(old(coarse), old(List()), r, coarse, List())
    {
      ghost var was := List();
      forall p ensures Contains(r, p) ==> Covered(was + [r], p)
               ensures Covered(was, p) ==> Covered(was + [r], p)
      {
        CoveredConcat(was, [r], p);
        assert Covered([r], p) <==> Contains([r][0], p);
      }
      if !valid {
        bounds := r;
        valid := true;
      } else {
        AppendedBounds(was, r, bounds);
        bounds := Union(bounds, r);
      }
      assert AllProper(was + [r]) && Bounds(bounds, was + [r]) by {
        if was == [] {
          SingleBounds(r);
          assert was + [r] == [r];
        }
      }
      if coarse {
        SetCoarseUnion(was + [r]);
        return;
      }
      var i := 0;
      while i < count
        invariant i <= count
        invariant forall k :: 0 <= k < i ==> !TouchOrOverlap(was[k], r)
      {
        if TouchOrOverlap(rects[i], r) {
          ReplacedGrows(was, i, r, old(bounds));
          rects[i] := Union(rects[i], r);
          assert List() == was[i := Union(was[i], r)];
          GrownOnce(was, r, i);
          Absorb(i, was, r);
          return;
        }
        i := i + 1;
      }
      if count < MAX_RECTS {
        rects[count] := r;
        count := count + 1;
        assert List() == was + [r];
        return;
      }
      SetCoarseUnion(was + [r]);
    }

    lemma SingleBounds(r: Rect)
      requires Proper(r)
      ensures AllProper([r]) && Bounds(r, [r])
    {
      forall outer | AllWithin([r], outer) ensures Within(r, outer) {
        assert [r][0] == r;
      }
    }

    method AddFull()
      requires ListValid()
      modifies this`valid, this`coarse, this`count, this`bounds, rects
      ensures ListValid() && valid
      ensures Grows(old(List()), List())
      ensures forall p :: Contains(Output(), p) ==> Covered(List(), p)
    {
      AddPx(0, 0, width, height);
    }

    /** A new output size drops the recorded damage and the history. */
    method Resize(width: nat, height: nat)
      requires Valid() && 0 < width && 0 < height
      modifies this`width, this`height, this`valid, this`count, this`serial, history
      ensures Valid() && this.width == width && this.height == height
      ensures !valid && List() == [] && serial == 0 && Recent() == []
    {
      this.width, this.height := width, height;
      valid, count := false, 0;
      forall k | 0 <= k < history.Length {
        history[k] := History(false, []);
      }
      serial := 0;
    }

    /** Hand the recorded damage to the renderer and start afresh.  Without any
        recorded damage the whole output is handed out. */
    method Consume() returns (out: seq<Rect>, box: Rect)
      requires Valid()
      modifies this`valid, this`coarse, this`count, this`lastValid, this`lastRects
      ensures Valid() && !valid && List() == []
      ensures old(valid) ==> out == old(List()) && box == old(bounds)
      ensures !old(valid) ==> out == [Output()] && box == Output()
      ensures 0 < |out| <= MAX_RECTS && AllProper(out) && AllWithin(out, Output())
      ensures lastValid && lastRects == out
    {
      box := if valid then bounds else Output();
      if valid && count > 0 {
        out := rects[..count];
        forall k | 0 <= k < |out| ensures Within(out[k], Output()) {
          assert Within(out[k], bounds);
        }
      } else {
        out := [box];
      }
      lastValid, lastRects := true, out;
      valid, coarse, count := false, false, 0;
    }

    // ---- damage history --------------------------------------------------------

    /** The slot that holds the damage of the `back`-th latest recorded frame. */
    function Slot(back: nat): History
      requires history.Length == HISTORY_SLOTS && 0 < back <= serial
      reads this`serial, history
    {
      history[(serial - back) % HISTORY_SLOTS]
    }

    /** The damage of the remembered frames, latest first. */
    function Recent(): (r: seq<History>)
      requires history.Length == HISTORY_SLOTS
      reads this`serial, history
      ensures |r| == if serial < HISTORY_SLOTS then serial else HISTORY_SLOTS
      ensures forall back :: 0 < back <= |r| ==> r[back - 1] == Slot(back)
    {
      if serial == 0 then []
      else if serial == 1 then [Slot(1)]
      else if serial == 2 then [Slot(1), Slot(2)]
      else [Slot(1), Slot(2), Slot(3)]
    }

    /** Every frame that a buffer of this age missed is still known. */
    ghost predicate Remembered(age: nat)
      requires history.Length == HISTORY_SLOTS
      reads this`serial, history
    {
      age - 1 <= |Recent()| && forall k :: 0 <= k < age - 1 ==> Recent()[k].valid
    }

    /** The damage of the frames that a buffer of this age missed. */
    ghost function Replayed(age: nat): seq<Rect>
      requires history.Length == HISTORY_SLOTS && age - 1 <= |Recent()|
      reads this`serial, history
    {
      if age <= 1 then [] else Replayed(age - 1) + Recent()[age - 2].rects
    }

    method HistoryReset()
      requires Valid()
      modifies this`serial, history
      ensures Valid() && serial == 0 && Recent() == []
    {
      forall k | 0 <= k < history.Length {
        history[k] := History(false, []);
      }
      serial := 0;
    }

    /** Record the damage of the frame that was just published. */
    method HistoryRecord()
      requires Valid() && (lastValid ==> |lastRects| > 0 && AllProper(lastRects) && AllWithin(lastRects, Output()))
      modifies this`serial, history
      ensures Valid() && serial == old(serial) + 1
      ensures lastValid ==> Recent() == Remember(History(true, lastRects), old(Recent()))
    {
      var k := serial % HISTORY_SLOTS;
      history[k] := if lastValid && |lastRects| > 0 then History(true, lastRects) else History(false, []);
      serial := serial + 1;
      assert Slot(1) == history[k];
      assert serial >= 2 ==> (serial - 2) % HISTORY_SLOTS != k && Slot(2) == old(Slot(1));
      assert serial >= 3 ==> (serial - 3) % HISTORY_SLOTS != k && Slot(3) == old(Slot(2));
    }

    /** Replay the history for a buffer of the given age: the recorded damage then
        covers every output pixel outdated by any of the frames the buffer missed. */
    method HistoryApply(age: nat)
      requires Valid()
      modifies this`valid, this`coarse, this`count, this`bounds, rects
      ensures Valid()
      ensures Grows(old(List()), List())
      ensures age == 0 ==> forall p :: Contains(Output(), p) ==> Covered(List(), p)
      ensures age == 1 ==> List() == old(List())
      ensures forall back, p :: 0 < back < age && Contains(Output(), p) && Outdated(Recent(), back, p) ==>
                Covered(List(), p)
      ensures 0 < age && Remembered(age) ==> NoMoreThan(old(valid), old(bounds), valid, bounds, Replayed(age))
    {
      if age == 0 {
        AddFull();
        return;
      }
      var back := 1;
      while back < age
        invariant 1 <= back <= age
        invariant Valid()
        invariant Grows(old(List()), List())
        invariant age == 1 ==> List() == old(List())
        invariant CaughtUp(Recent(), List(), Output(), back)
        invariant back - 1 <= |Recent()| && NoMoreThan(old(valid), old(bounds), valid, bounds, Replayed(back))
      {
        ghost var had, box, was := valid, bounds, List();
        var known := ReplayFrame(back);
        if !known {
          return;
        }
        CaughtUpStep(Recent(), was, List(), Output(), back);
        NoMoreTwice(old(valid), old(bounds), had, box, valid, bounds, Replayed(back), Recent()[back - 1].rects);
        back := back + 1;
      }
    }

    /** Replay one remembered frame, or damage everything if it is not known. */
    method ReplayFrame(back: nat) returns (known: bool)
      requires Valid() && 0 < back
      modifies this`valid, this`coarse, this`count, this`bounds, rects
      ensures Valid() && Grows(old(List()), List())
      ensures known <==> back <= |Recent()| && Recent()[back - 1].valid
      ensures !known ==> forall p :: Contains(Output(), p) ==> Covered(List(), p)
      ensures known ==>
                && (forall p :: Contains(Output(), p) && Outdated(Recent(), back, p) ==> Covered(List(), p))
                && NoMoreThan(old(valid), old(bounds), valid, bounds, Recent()[back - 1].rects)
    {
      if back > HISTORY_SLOTS || serial < back || !history[(serial - back) % HISTORY_SLOTS].valid {
        assert back <= |Recent()| ==> Recent()[back - 1] == Slot(back);
        AddFull();
        return false;
      }
      AddAll(Slot(back).rects);
      return true;
    }

    method AddAll(rs: seq<Rect>)
      requires Valid()
      modifies this`valid, this`coarse, this`count, this`bounds, rects
      ensures Valid()
      ensures Grows(old(List()), List())
      ensures forall p :: Covered(rs, p) && Contains(Output(), p) ==> Covered(List(), p)
      ensures NoMoreThan(old(valid), old(bounds), valid, bounds, rs)
    {
      var i := 0;
      while i < |rs|
        invariant 0 <= i <= |rs|
        invariant Valid()
        invariant Grows(old(List()), List())
        invariant forall k, p :: 0 <= k < i && Contains(rs[k], p) && Contains(Output(), p) ==> Covered(List(), p)
        invariant NoMoreThan(old(valid), old(bounds), valid, bounds, rs)
      {
        var r := rs[i];
        AddPx(r.x0, r.y0, r.x1 - r.x0, r.y1 - r.y0);
        i := i + 1;
      }
    }
  }
}
