/** Runs of the presenter, feedback by feedback: what was published with an app to wait
    for is not answered before the app has it on screen or 100 ms have passed. */
module PresentTrace {
  import opened Presentation
  import opened Presenter

  /** A feedback waits in a batch of this generation and publishing time. */
  ghost predicate Waits(v: View, f: Feedback, generation: nat, started: nat) {
    exists i :: 0 <= i < |v.batches| && InBatch(v.batches[i], f, generation, started)
  }

  predicate InBatch(b: Batch, f: Feedback, generation: nat, started: nat) {
    f in b.feedbacks && b.generation == generation && b.started == started
  }

  /** It was taken back by its client. */
  ghost predicate Gone(v: View, f: Feedback) {
    f !in v.Everything() && f.id < v.nextFeedback
  }

  /** The event may answer a batch: the app has presented it, it is 100 ms old, or a
      repaint has no app or frame to wait for. */
  predicate OnTime(e: Event, v: View, generation: nat, started: nat) {
    || (e.AckTick? && (e.presented >= generation || v.clock - started >= 100))
    || (e.FramePublished? && (!e.app || v.generation == 0))
  }

  lemma {:induction false} FromBatch(batches: seq<Batch>, i: nat, f: Feedback)
    requires i < |batches| && f in batches[i].feedbacks
    ensures f in Batched(batches)
  {
    if i > 0 {
      FromBatch(batches[1..], i - 1, f);
    }
  }

  /** What is still out is not answered. */
  lemma OnePlace(v: View, f: Feedback)
    requires Single(v)
    ensures f in Batched(v.batches) ==> f !in Answered(v.answers) && f !in Listed(v.surfaces)
    ensures f in Listed(v.surfaces) ==> f !in Answered(v.answers)
  {
    var a, b, c := Answered(v.answers), Batched(v.batches), Listed(v.surfaces);
    assert multiset(v.Everything())[f] == multiset(a)[f] + multiset(b)[f] + multiset(c)[f];
    assert f in a ==> f in multiset(a);
    assert f in b ==> f in multiset(b);
    assert f in c ==> f in multiset(c);
  }

  lemma StillOut(v: View, f: Feedback, generation: nat, started: nat)
    requires Single(v) && Waits(v, f, generation, started)
    ensures f !in Answered(v.answers) && f in Batched(v.batches)
  {
    var i :| 0 <= i < |v.batches| && InBatch(v.batches[i], f, generation, started);
    FromBatch(v.batches, i, f);
    OnePlace(v, f);
  }

  lemma TickedStep(v: View, w: View, presented: nat, k: nat, f: Feedback, generation: nat, started: nat)
    requires Ticked(v, w, presented, k) && Single(v) && Single(w) && Waits(v, f, generation, started)
    ensures Waits(w, f, generation, started) ||
            (f in Answered(w.answers) && (presented >= generation || v.clock - started >= 100))
  {
    var i :| 0 <= i < |v.batches| && InBatch(v.batches[i], f, generation, started);
    if i >= k {
      assert InBatch(w.batches[i - k], f, generation, started);
    } else {
      BatchesShown(v.Books(), v.batches, k);
      assert v.batches[..k][i] == v.batches[i];
      FromBatch(v.batches[..k], i, f);
      assert f in Answered(v.answers) + Batched(v.batches[..k]);
    }
  }

  lemma PublishedStep(v: View, w: View, app: bool, f: Feedback, generation: nat, started: nat)
    requires Published(v, w, app) && Single(v) && Waits(v, f, generation, started)
    ensures if app && v.generation > 0 then Waits(w, f, generation, started) else f in Answered(w.answers)
  {
    var i :| 0 <= i < |v.batches| && InBatch(v.batches[i], f, generation, started);
    if app && v.generation > 0 {
      assert InBatch(w.batches[i], f, generation, started);
    } else {
      FromBatch(v.batches, i, f);
      AllShownExactly(v);
      assert f in Answered(v.answers) + (Batched(v.batches) + Listed(v.surfaces));
    }
  }

  lemma AllShownExactly(v: View)
    requires Counted(v.answers, v.count)
    ensures ShownExactly(v.Books(), AllShown(v), Batched(v.batches) + Listed(v.surfaces))
  {
    var n, m := |v.batches|, |v.surfaces|;
    BatchesShown(v.Books(), v.batches, n);
    assert v.batches[..n] == v.batches && v.surfaces[..m] == v.surfaces;
    var mid := ShowAll(v.Books(), BatchLists(v.batches));
    SurfacesShown(mid, v.surfaces, m);
    Associative(Answered(v.answers), Batched(v.batches), Listed(v.surfaces));
  }

  lemma DroppedStep(v: View, g: Feedback, f: Feedback, generation: nat, started: nat)
    requires g != f && Waits(v, f, generation, started)
    ensures Waits(Dropped(v, g), f, generation, started)
  {
    var i :| 0 <= i < |v.batches| && InBatch(v.batches[i], f, generation, started);
    ExceptCount(g, v.batches[i].feedbacks);
    assert f in multiset(Except(g, v.batches[i].feedbacks));
    assert InBatch(Dropped(v, g).batches[i], f, generation, started);
  }

  /** In one step a waiting feedback goes on waiting, is answered in time, or is taken
      back. */
  lemma WaitingStep(v: View, w: View, e: Event, f: Feedback, generation: nat, started: nat)
    requires Served(v, w, e) && Single(v) && Single(w) && Waits(v, f, generation, started)
    ensures || Waits(w, f, generation, started)
            || (f in Answered(w.answers) && OnTime(e, v, generation, started))
            || (e == FeedbackDropped(f) && w == Dropped(v, f))
  {
    StillOut(v, f, generation, started);
    if e.AckTick? {
      var k: nat :| Ticked(v, w, e.presented, k);
      TickedStep(v, w, e.presented, k, f, generation, started);
    } else if e.FramePublished? {
      PublishedStep(v, w, e.app, f, generation, started);
    } else if e.FeedbackDropped? && e.f != f {
      DroppedStep(v, e.f, f, generation, started);
    } else if !e.FeedbackDropped? {
      SameBatches(v, w, e);
    }
  }

  lemma SameBatches(v: View, w: View, e: Event)
    requires Served(v, w, e) && v.batches != []
    requires !e.AckTick? && !e.FramePublished? && !e.FeedbackDropped?
    ensures w.batches == v.batches
  {
  }

  // ---- what never comes back --------------------------------------------------------------------

  /** Where everything of the next state comes from. */
  lemma NothingFromNowhere(v: View, w: View, e: Event, f: Feedback)
    requires Served(v, w, e) && Single(v) && f in w.Everything()
    ensures f in v.Everything() || f.id == v.nextFeedback
  {
    if e.AckTick? {
      var k: nat :| Ticked(v, w, e.presented, k);
      FromTicked(v, w, e.presented, k, f);
    } else if e.FramePublished? {
      FromPublished(v, w, e.app, f);
    } else if e.FrameClockTick? {
      FromClocked(v, w, f);
    } else if e.SurfaceDestroyed? {
      FromLost(v, w, e.s, f);
    } else if e.FeedbackRequested? {
      FromAsked(v, w, e.s, f);
    } else if e.FeedbackDropped? {
      FromDropped(v, e.f, f);
    } else if e.SurfaceCreated? {
      assert w.surfaces[1..] == v.surfaces;
      assert Listed(w.surfaces) == [] + Listed(v.surfaces);
    }
  }

  lemma FromTicked(v: View, w: View, presented: nat, k: nat, f: Feedback)
    requires Ticked(v, w, presented, k) && Single(v) && f in w.Everything()
    ensures f in v.Everything()
  {
    BatchesShown(v.Books(), v.batches, k);
    BatchedConcat(v.batches[..k], v.batches[k..]);
    assert v.batches[..k] + v.batches[k..] == v.batches;
  }

  lemma FromPublished(v: View, w: View, app: bool, f: Feedback)
    requires Published(v, w, app) && Single(v) && f in w.Everything()
    ensures f in v.Everything()
  {
    EmptiedListed(v.surfaces);
    if app && v.generation > 0 {
      BatchedOne(v.batches, Batch(v.generation, v.clock, Listed(v.surfaces)));
    } else {
      AllShownExactly(v);
    }
  }

  lemma FromClocked(v: View, w: View, f: Feedback)
    requires Clocked(v, w) && Single(v) && f in w.Everything()
    ensures f in v.Everything()
  {
    EmptiedListed(v.surfaces);
    SurfacesShown(v.Books(), v.surfaces, |v.surfaces|);
    assert v.surfaces[..|v.surfaces|] == v.surfaces;
  }

  lemma FromLost(v: View, w: View, s: nat, f: Feedback)
    requires Lost(v, w, s) && f in w.Everything()
    ensures f in v.Everything()
  {
    if Live(v.surfaces, s) {
      var i :| 0 <= i < |v.surfaces| && w == v.(surfaces := v.surfaces[..i] + v.surfaces[i + 1..],
                                                answers := v.answers + Refused(v.surfaces[i].feedbacks));
      ListedSplit(v.surfaces, i);
      ListedConcat(v.surfaces[..i], v.surfaces[i + 1..]);
      AnsweredMore(v.answers, v.surfaces[i].feedbacks, v.count);
    }
  }

  lemma FromAsked(v: View, w: View, s: nat, f: Feedback)
    requires Asked(v, w, s) && f in w.Everything()
    ensures f in v.Everything() || f.id == v.nextFeedback
  {
    if Live(v.surfaces, s) {
      var g := Feedback(v.nextFeedback, s);
      var i :| 0 <= i < |v.surfaces| && v.surfaces[i].surface == s
               && w == v.(surfaces := v.surfaces[i := Waiting(s, v.surfaces[i].feedbacks + [g])],
                          nextFeedback := v.nextFeedback + 1);
      assert w.surfaces == Appended(v.surfaces, i, g);
      AppendedListed([], v.surfaces, i, g);
      assert [] + Listed(v.surfaces) == Listed(v.surfaces) && [] + Listed(w.surfaces) == Listed(w.surfaces);
    }
  }

  lemma FromDropped(v: View, g: Feedback, f: Feedback)
    ensures f in Dropped(v, g).Everything() ==> f in v.Everything()
  {
    BatchedExcept(g, v.batches);
    ListedExcept(g, v.surfaces);
    ExceptCount(g, Batched(v.batches));
    ExceptCount(g, Listed(v.surfaces));
  }

  /** Answers stay, and no counter goes back. */
  lemma Onwards(v: View, w: View, e: Event)
    requires Served(v, w, e) && Single(v)
    ensures v.answers <= w.answers && v.nextFeedback <= w.nextFeedback && v.generation <= w.generation
  {
    if e.AckTick? {
      var k: nat :| Ticked(v, w, e.presented, k);
      BatchesShown(v.Books(), v.batches, k);
    } else if e.FramePublished? {
      AllShownExactly(v);
    } else if e.FrameClockTick? {
      SurfacesShown(v.Books(), v.surfaces, |v.surfaces|);
      assert v.surfaces[..|v.surfaces|] == v.surfaces;
    }
  }

  lemma DroppedIsGone(v: View, f: Feedback)
    requires Single(v) && f in Batched(v.batches)
    ensures Gone(Dropped(v, f), f)
  {
    OnePlace(v, f);
    BatchedExcept(f, v.batches);
    ListedExcept(f, v.surfaces);
    ExceptGone(f, Batched(v.batches));
    ExceptGone(f, Listed(v.surfaces));
    assert f in v.Everything();
  }

  // ---- whole runs ------------------------------------------------------------------------------------

  /** It waits, or is answered, or was taken back. */
  ghost predicate Settled(v: View, f: Feedback, generation: nat, started: nat) {
    || Waits(v, f, generation, started)
    || f in Answered(v.answers)
    || Gone(v, f)
  }

  lemma SettledStep(v: View, w: View, e: Event, f: Feedback, generation: nat, started: nat)
    requires Served(v, w, e) && Single(v) && Single(w) && Settled(v, f, generation, started)
    ensures Settled(w, f, generation, started)
  {
    Onwards(v, w, e);
    if Waits(v, f, generation, started) {
      WaitingStep(v, w, e, f, generation, started);
      StillOut(v, f, generation, started);
      DroppedIsGone(v, f);
    } else if f in Answered(v.answers) {
      var i :| 0 <= i < |v.answers| && Answered(v.answers)[i] == f;
      assert Answered(w.answers)[i] == f;
    } else if f in w.Everything() {
      NothingFromNowhere(v, w, e, f);
    }
  }

  lemma {:induction false} SettledAlong(views: seq<View>, events: seq<Event>, j: nat, k: nat, f: Feedback,
                                        generation: nat, started: nat)
    requires Trace(views, events) && j <= k <= |events| && Settled(views[j], f, generation, started)
    ensures Settled(views[k], f, generation, started) && views[j].generation <= views[k].generation
    decreases k
  {
    if j < k {
      SettledAlong(views, events, j, k - 1, f, generation, started);
      SettledStep(views[k - 1], views[k], events[k - 1], f, generation, started);
      Onwards(views[k - 1], views[k], events[k - 1]);
    }
  }

  /** Publishing puts what is listed into a batch of this moment. */
  lemma PublishedWaits(v: View, w: View, f: Feedback)
    requires Published(v, w, true) && v.generation > 0 && f in Listed(v.surfaces)
    ensures Waits(w, f, v.generation, v.clock)
  {
    assert InBatch(w.batches[|v.batches|], f, v.generation, v.clock);
  }

  /** In every run: a feedback published by step `j` with an app to wait for and
      answered by step `k` is answered by a tick at which the app has presented that
      generation or 100 ms have passed since, or by a repaint without an app. */
  lemma NotBeforePresented(views: seq<View>, events: seq<Event>, j: nat, k: nat, f: Feedback)
    requires Trace(views, events) && j < k < |events|
    requires events[j] == FramePublished(true) && views[j].generation > 0 && f in Listed(views[j].surfaces)
    requires f !in Answered(views[k].answers) && f in Answered(views[k + 1].answers)
    ensures || events[k] == FramePublished(false)
            || (events[k].AckTick?
                && (events[k].presented >= views[j].generation || views[k].clock - views[j].clock >= 100))
  {
    var g, t := views[j].generation, views[j].clock;
    assert Served(views[j], views[j + 1], events[j]);
    PublishedWaits(views[j], views[j + 1], f);
    Onwards(views[j], views[j + 1], events[j]);
    SettledAlong(views, events, j + 1, k, f, g, t);
    AnsweredOnTime(views[k], views[k + 1], events[k], f, g, t);
  }

  lemma AnsweredOnTime(v: View, w: View, e: Event, f: Feedback, generation: nat, started: nat)
    requires Served(v, w, e) && Single(v) && Single(w) && Settled(v, f, generation, started)
    requires f !in Answered(v.answers) && f in Answered(w.answers)
    ensures OnTime(e, v, generation, started)
  {
    if Waits(v, f, generation, started) {
      WaitingStep(v, w, e, f, generation, started);
      if Waits(w, f, generation, started) {
        StillOut(w, f, generation, started);
        assert false;
      } else if e == FeedbackDropped(f) {
        assert false;
      }
    } else {
      assert f in w.Everything();
      NothingFromNowhere(v, w, e, f);
      assert false;
    }
  }
}
