/** The compositor's side of `wp_presentation`: requests, publishing, the ack timer
    and the frame clock, over every run. */
module Presenter {
  import opened Presentation

  datatype Event =
    | SurfaceCreated
    | SurfaceDestroyed(s: nat)
    | FeedbackRequested(s: nat)
    | FeedbackDropped(f: Feedback)
    | TimePassed(ms: nat)
    | FrameRendered
    | RepaintScheduled(scheduled: bool)
    | FramePublished(app: bool)
    | AckTick(presented: nat)
    | FrameClockTick

  function Stamped(fbs: seq<Feedback>, count: nat): seq<Answer> {
    seq(|fbs|, i requires 0 <= i < |fbs| => Presented(fbs[i], count))
  }

  function Refused(fbs: seq<Feedback>): seq<Answer> {
    seq(|fbs|, i requires 0 <= i < |fbs| => Discarded(fbs[i]))
  }

  lemma AnsweredMore(answers: seq<Answer>, fbs: seq<Feedback>, count: nat)
    ensures Answered(answers + Stamped(fbs, count)) == Answered(answers) + fbs
    ensures Answered(answers + Refused(fbs)) == Answered(answers) + fbs
  {
  }

  lemma StampedCounted(answers: seq<Answer>, fbs: seq<Feedback>, count: nat)
    requires Counted(answers, count)
    ensures Counted(answers + Stamped(fbs, count + 1), count + 1)
    ensures Counted(answers + Refused(fbs), count)
  {
  }

  /** The answers given, and the counter of the last one. */
  datatype Ledger = Ledger(answers: seq<Answer>, count: nat)

  /** One list is shown: its feedbacks are answered in order as presented, all with the
      next counter value. */
  function Show(l: Ledger, fbs: seq<Feedback>): Ledger {
    if fbs == [] then l else Ledger(l.answers + Stamped(fbs, l.count + 1), l.count + 1)
  }

  function ShowAll(l: Ledger, lists: seq<seq<Feedback>>): Ledger {
    if lists == [] then l else Show(ShowAll(l, lists[..|lists| - 1]), lists[|lists| - 1])
  }

  function BatchLists(batches: seq<Batch>): seq<seq<Feedback>> {
    seq(|batches|, i requires 0 <= i < |batches| => batches[i].feedbacks)
  }

  function SurfaceLists(surfaces: seq<Waiting>): seq<seq<Feedback>> {
    seq(|surfaces|, i requires 0 <= i < |surfaces| => surfaces[i].feedbacks)
  }

  lemma ShowOneMore(l: Ledger, lists: seq<seq<Feedback>>, fbs: seq<Feedback>)
    ensures ShowAll(l, lists + [fbs]) == Show(ShowAll(l, lists), fbs)
  {
    assert (lists + [fbs])[..|lists|] == lists;
  }

  lemma ShowBatch(l: Ledger, batches: seq<Batch>, k: nat)
    requires k < |batches|
    ensures ShowAll(l, BatchLists(batches[..k + 1])) == Show(ShowAll(l, BatchLists(batches[..k])), batches[k].feedbacks)
  {
    ShowOneMore(l, BatchLists(batches[..k]), batches[k].feedbacks);
    assert BatchLists(batches[..k + 1]) == BatchLists(batches[..k]) + [batches[k].feedbacks];
  }

  lemma ShowSurface(l: Ledger, surfaces: seq<Waiting>, k: nat)
    requires k < |surfaces|
    ensures ShowAll(l, SurfaceLists(surfaces[..k + 1])) ==
            Show(ShowAll(l, SurfaceLists(surfaces[..k])), surfaces[k].feedbacks)
  {
    ShowOneMore(l, SurfaceLists(surfaces[..k]), surfaces[k].feedbacks);
    assert SurfaceLists(surfaces[..k + 1]) == SurfaceLists(surfaces[..k]) + [surfaces[k].feedbacks];
  }

  lemma ShowKeeps(l: Ledger, fbs: seq<Feedback>)
    requires Counted(l.answers, l.count)
    ensures var r := Show(l, fbs); Counted(r.answers, r.count) && Answered(r.answers) == Answered(l.answers) + fbs
    ensures l.answers <= Show(l, fbs).answers
    ensures forall i :: |l.answers| <= i < |Show(l, fbs).answers| ==> Show(l, fbs).answers[i].Presented?
  {
    AnsweredMore(l.answers, fbs, l.count + 1);
    StampedCounted(l.answers, fbs, l.count);
  }

  /** Showing answers what the lists hold, in order, all as presented. */
  ghost predicate ShownExactly(l: Ledger, r: Ledger, fbs: seq<Feedback>) {
    && Counted(r.answers, r.count) && l.answers <= r.answers
    && Answered(r.answers) == Answered(l.answers) + fbs
    && forall i :: |l.answers| <= i < |r.answers| ==> r.answers[i].Presented?
  }

  lemma ShownThen(l: Ledger, m: Ledger, a: seq<Feedback>, fbs: seq<Feedback>)
    requires ShownExactly(l, m, a)
    ensures ShownExactly(l, Show(m, fbs), a + fbs)
  {
    ShowKeeps(m, fbs);
    Associative(Answered(l.answers), a, fbs);
  }

  lemma {:induction false} BatchesShown(l: Ledger, batches: seq<Batch>, k: nat)
    requires Counted(l.answers, l.count) && k <= |batches|
    ensures ShownExactly(l, ShowAll(l, BatchLists(batches[..k])), Batched(batches[..k]))
    decreases k
  {
    if k > 0 {
      BatchesShown(l, batches, k - 1);
      ShowBatch(l, batches, k - 1);
      BatchedStep(batches, k - 1);
      ShownThen(l, ShowAll(l, BatchLists(batches[..k - 1])), Batched(batches[..k - 1]), batches[k - 1].feedbacks);
    }
  }

  lemma {:induction false} SurfacesShown(l: Ledger, surfaces: seq<Waiting>, k: nat)
    requires Counted(l.answers, l.count) && k <= |surfaces|
    ensures ShownExactly(l, ShowAll(l, SurfaceLists(surfaces[..k])), Listed(surfaces[..k]))
    decreases k
  {
    if k > 0 {
      SurfacesShown(l, surfaces, k - 1);
      ShowSurface(l, surfaces, k - 1);
      ListedStep(surfaces, k - 1);
      ShownThen(l, ShowAll(l, SurfaceLists(surfaces[..k - 1])), Listed(surfaces[..k - 1]), surfaces[k - 1].feedbacks);
    }
  }

  datatype View = View(surfaces: seq<Waiting>, batches: seq<Batch>, answers: seq<Answer>, count: nat,
                       generation: nat, clock: nat, nextSurface: nat, nextFeedback: nat, scheduled: bool)
  {
    function Books(): Ledger { Ledger(answers, count) }

    ghost function Everything(): seq<Feedback> { All(answers, batches, surfaces) }

    ghost predicate Sound(requested: seq<Feedback>) {
      && OwnLists(surfaces) && Conserved(Everything(), requested, surfaces)
      && Aged(batches, generation, clock) && Counted(answers, count)
      && Known(requested, surfaces, nextSurface, nextFeedback)
    }
  }

  /** The batches are shown, oldest first, then what the surfaces list. */
  function AllShown(v: View): Ledger {
    ShowAll(ShowAll(v.Books(), BatchLists(v.batches)), SurfaceLists(v.surfaces))
  }

  /** A new feedback is the last of its surface's list; a surface that is gone takes none. */
  ghost predicate Asked(v: View, w: View, s: nat) {
    if Live(v.surfaces, s) then
      exists i ::
        && 0 <= i < |v.surfaces| && v.surfaces[i].surface == s
        && w == v.(surfaces := v.surfaces[i := Waiting(s, v.surfaces[i].feedbacks + [Feedback(v.nextFeedback, s)])],
                   nextFeedback := v.nextFeedback + 1)
    else w == v
  }

  /** A surface goes with its list, which is discarded. */
  ghost predicate Lost(v: View, w: View, s: nat) {
    if Live(v.surfaces, s) then
      exists i ::
        && 0 <= i < |v.surfaces| && v.surfaces[i].surface == s
        && w == v.(surfaces := v.surfaces[..i] + v.surfaces[i + 1..],
                   answers := v.answers + Refused(v.surfaces[i].feedbacks))
    else w == v
  }

  /** A tick answers the oldest batches only, each of them presented or 100 ms old, and
      all of those if no age is hidden by the wrap of the clock. */
  ghost predicate Ticked(v: View, w: View, presented: nat, k: nat) {
    && k <= |v.batches|
    && w == v.(batches := v.batches[k..], answers := w.answers, count := w.count)
    && w.Books() == ShowAll(v.Books(), BatchLists(v.batches[..k]))
    && (forall i :: 0 <= i < k ==> presented >= v.batches[i].generation || v.clock - v.batches[i].started >= 100)
    && ((forall i :: 0 <= i < |v.batches| ==> !Hidden(v.batches[i], presented, v.clock)) ==>
          forall i :: k <= i < |v.batches| ==> presented < v.batches[i].generation && v.clock - v.batches[i].started < 100)
  }

  /** With an app and a frame to wait for, what is listed becomes the youngest batch;
      otherwise everything is answered. */
  ghost predicate Published(v: View, w: View, app: bool) {
    if app && v.generation > 0 then
      w == v.(surfaces := Emptied(v.surfaces),
              batches := v.batches + [Batch(v.generation, v.clock, Listed(v.surfaces))])
    else
      && w == v.(surfaces := Emptied(v.surfaces), batches := [], answers := w.answers, count := w.count)
      && w.Books() == AllShown(v)
  }

  /** What is listed is answered, unless a repaint is scheduled or a batch is out. */
  ghost predicate Clocked(v: View, w: View) {
    if v.scheduled || v.batches != [] then w == v
    else
      && w == v.(surfaces := Emptied(v.surfaces), answers := w.answers, count := w.count)
      && w.Books() == ShowAll(v.Books(), SurfaceLists(v.surfaces))
  }

  /** What one event does, all of it. */
  ghost predicate Served(v: View, w: View, e: Event) {
    match e
    case SurfaceCreated =>
      w == v.(surfaces := [Waiting(v.nextSurface, [])] + v.surfaces, nextSurface := v.nextSurface + 1)
    case SurfaceDestroyed(s) => Lost(v, w, s)
    case FeedbackRequested(s) => Asked(v, w, s)
    case FeedbackDropped(f) => w == if f in Answered(v.answers) then v else Dropped(v, f)
    case TimePassed(ms) => w == v.(clock := v.clock + ms)
    case FrameRendered => w == v.(generation := v.generation + 1)
    case RepaintScheduled(on) => w == v.(scheduled := on)
    case FramePublished(app) => Published(v, w, app)
    case AckTick(presented) => exists k :: Ticked(v, w, presented, k)
    case FrameClockTick => Clocked(v, w)
  }

  class Presenter {
    var surfaces: seq<Waiting>
    var batches: seq<Batch>
    var answers: seq<Answer>
    var count: nat
    var generation: nat
    var clock: nat
    var scheduled: bool
    /** Objects are new whenever they are made. */
    var nextSurface: nat
    var nextFeedback: nat
    /** Everything asked for and not taken back by its client. */
    ghost var requested: seq<Feedback>

    ghost function Now(): View
      reads this
    {
      View(surfaces, batches, answers, count, generation, clock, nextSurface, nextFeedback, scheduled)
    }

    ghost predicate Valid()
      reads this
    {
      Now().Sound(requested)
    }

    constructor ()
      ensures Valid() && surfaces == [] && batches == [] && answers == [] && requested == [] && generation == 0
      ensures clock == 0
    {
      surfaces, batches, answers, requested := [], [], [], [];
      count, generation, clock, scheduled, nextSurface, nextFeedback := 0, 0, 0, false, 0, 0;
    }

    // ---- answering --------------------------------------------------------------------------------

    /** `presentation_present_list`: one counter value for the whole list. */
    method PresentList(fbs: seq<Feedback>)
      requires Counted(answers, count)
      modifies this`answers, this`count
      ensures Counted(answers, count)
      ensures count == old(count) + if fbs == [] then 0 else 1
      ensures answers == old(answers) + Stamped(fbs, count)
      ensures Now().Books() == Show(old(Now()).Books(), fbs)
      ensures Answered(answers) == Answered(old(answers)) + fbs
    {
      if fbs == [] {
        assert answers == answers + Stamped(fbs, count);
        AnsweredMore(answers, fbs, count);
        return;
      }
      AnsweredMore(answers, fbs, count + 1);
      StampedCounted(answers, fbs, count);
      count := count + 1;
      for i := 0 to |fbs|
        invariant count == old(count) + 1 && answers == old(answers) + Stamped(fbs[..i], count)
      {
        answers := answers + [Presented(fbs[i], count)];
        assert Stamped(fbs[..i + 1], count) == Stamped(fbs[..i], count) + [Presented(fbs[i], count)];
      }
      assert fbs[..|fbs|] == fbs;
    }

    /** `present_batch_answer` on the oldest batch. */
    method AnswerOldest()
      requires |batches| > 0 && Counted(answers, count)
      modifies this`answers, this`count, this`batches
      ensures batches == old(batches)[1..] && Counted(answers, count)
      ensures Answered(answers) == Answered(old(answers)) + old(batches)[0].feedbacks
      ensures Now().Books() == Show(old(Now()).Books(), old(batches)[0].feedbacks)
    {
      PresentList(batches[0].feedbacks);
      batches := batches[1..];
    }

    /** `present_ack_timer_cb`: answers the oldest `k` batches, all of them presented
        or 100 ms old, and all such batches exactly when no age is hidden by the
        wrap of 32-bit milliseconds. */
    method Tick(presented: nat) returns (k: nat)
      requires Valid()
      modifies this`answers, this`count, this`batches
      ensures Valid() && Now().Everything() == old(Now()).Everything()
      ensures k <= |old(batches)| && batches == old(batches)[k..]
      ensures Answered(answers) == Answered(old(answers)) + Batched(old(batches)[..k])
      ensures Now().Books() == ShowAll(old(Now()).Books(), BatchLists(old(batches)[..k]))
      ensures forall i :: 0 <= i < k ==> Due(old(batches)[i], presented, clock)
      ensures k < |old(batches)| ==> !Due(old(batches)[k], presented, clock)
      ensures k == 0 ==> answers == old(answers)
      ensures forall i :: 0 <= i < k ==> Intended(old(batches)[i], presented, clock)
      ensures Ticked(old(Now()), Now(), presented, k)
      ensures (forall i :: 0 <= i < |old(batches)| ==> (i < k <==> Intended(old(batches)[i], presented, clock)))
              <==> forall i :: 0 <= i < |old(batches)| ==> !Hidden(old(batches)[i], presented, clock)
    {
      k := AnswerDue(presented);
      BatchesShown(old(Now()).Books(), old(batches), k);
      DueSplit(old(batches), presented, generation, clock, k);
      OldestAnswered(old(Now()), requested, Now(), k);
      TickedBy(old(Now()), Now(), presented, k);
    }

    method OldestDue(presented: nat) returns (due: bool)
      requires |batches| > 0
      ensures due == Due(batches[0], presented, clock)
    {
      if presented >= batches[0].generation {
        return true;
      }
      return (clock % U32 - batches[0].started % U32) % U32 >= TIMEOUT_MS;
    }

    method AnswerDue(presented: nat) returns (k: nat)
      requires Counted(answers, count)
      modifies this`answers, this`count, this`batches
      ensures k <= |old(batches)| && batches == old(batches)[k..]
      ensures Now().Books() == ShowAll(old(Now()).Books(), BatchLists(old(batches)[..k]))
      ensures forall i :: 0 <= i < k ==> Due(old(batches)[i], presented, clock)
      ensures k < |old(batches)| ==> !Due(old(batches)[k], presented, clock)
      ensures k == 0 ==> answers == old(answers)
    {
      k := 0;
      while |batches| > 0
        invariant k == 0 ==> answers == old(answers)
        invariant k <= |old(batches)| && batches == old(batches)[k..] && Counted(answers, count)
        invariant Now().Books() == ShowAll(old(Now()).Books(), BatchLists(old(batches)[..k]))
        invariant forall i :: 0 <= i < k ==> Due(old(batches)[i], presented, clock)
      {
        var due := OldestDue(presented);
        if !due {
          return;
        }
        ShowBatch(old(Now()).Books(), old(batches), k);
        AnswerOldest();
        k := k + 1;
      }
    }

    /** Answer every batch, oldest first. */
    method AnswerBatches()
      requires Valid()
      modifies this`answers, this`count, this`batches
      ensures Valid() && Now().Everything() == old(Now()).Everything() && batches == []
      ensures Answered(answers) == Answered(old(answers)) + Batched(old(batches))
      ensures Now().Books() == ShowAll(old(Now()).Books(), BatchLists(old(batches)))
    {
      AnswerRest();
      BatchesShown(old(Now()).Books(), old(batches), |old(batches)|);
      assert old(batches)[..|old(batches)|] == old(batches);
      OldestAnswered(old(Now()), requested, Now(), |old(batches)|);
    }

    method AnswerRest()
      requires Counted(answers, count)
      modifies this`answers, this`count, this`batches
      ensures batches == [] && Now().Books() == ShowAll(old(Now()).Books(), BatchLists(old(batches)))
    {
      ghost var k := 0;
      while |batches| > 0
        invariant k <= |old(batches)| && batches == old(batches)[k..] && Counted(answers, count)
        invariant Now().Books() == ShowAll(old(Now()).Books(), BatchLists(old(batches)[..k]))
        decreases |batches|
      {
        ShowBatch(old(Now()).Books(), old(batches), k);
        AnswerOldest();
        k := k + 1;
      }
      assert old(batches)[..k] == old(batches);
    }

    /** Answer every surface's list; only done when nothing older waits. */
    method AnswerSurfaces()
      requires Valid() && batches == []
      modifies this`answers, this`count, this`surfaces
      ensures Valid() && Now().Everything() == old(Now()).Everything() && surfaces == Emptied(old(surfaces))
      ensures Answered(answers) == Answered(old(answers)) + Listed(old(surfaces))
      ensures Now().Books() == ShowAll(old(Now()).Books(), SurfaceLists(old(surfaces)))
    {
      AnswerLists();
      SurfacesShown(old(Now()).Books(), old(surfaces), |old(surfaces)|);
      assert old(surfaces)[..|old(surfaces)|] == old(surfaces);
      ListsAnswered(old(Now()), requested, Now());
    }

    method AnswerLists()
      requires Counted(answers, count)
      modifies this`answers, this`count, this`surfaces
      ensures surfaces == Emptied(old(surfaces))
      ensures Now().Books() == ShowAll(old(Now()).Books(), SurfaceLists(old(surfaces)))
    {
      ghost var ws := surfaces;
      for i := 0 to |surfaces|
        invariant |surfaces| == |ws| && Counted(answers, count)
        invariant surfaces == EmptiedTo(ws, i)
        invariant Now().Books() == ShowAll(old(Now()).Books(), SurfaceLists(ws[..i]))
      {
        ShowSurface(old(Now()).Books(), ws, i);
        AnswerList(i);
      }
      assert ws[..|ws|] == ws;
    }

    method AnswerList(i: nat)
      requires i < |surfaces| && Counted(answers, count)
      modifies this`answers, this`count, this`surfaces
      ensures surfaces == old(surfaces)[i := old(surfaces)[i].(feedbacks := [])] && Counted(answers, count)
      ensures Now().Books() == Show(old(Now()).Books(), old(surfaces)[i].feedbacks)
    {
      PresentList(surfaces[i].feedbacks);
      surfaces := surfaces[i := surfaces[i].(feedbacks := [])];
    }

    /** `frame_clock_timer_cb`: a commit that changed nothing is on screen already,
        unless a repaint or an older batch is still out. */
    method FrameClock()
      requires Valid()
      modifies this`answers, this`count, this`surfaces
      ensures Valid() && Now().Everything() == old(Now()).Everything()
      ensures if scheduled || |batches| > 0 then Now() == old(Now())
              else Answered(answers) == Answered(old(answers)) + Listed(old(surfaces)) && surfaces == Emptied(old(surfaces))
      ensures Clocked(old(Now()), Now())
    {
      if scheduled || |batches| > 0 {
        return;
      }
      assert batches == [];
      AnswerSurfaces();
    }

    /** `frame_callbacks_after_repaint` */
    method AfterRepaint()
      requires Valid()
      modifies this`answers, this`count, this`batches, this`surfaces
      ensures Valid() && Now().Everything() == old(Now()).Everything()
      ensures Answered(answers) == old(Now()).Everything() && batches == [] && surfaces == Emptied(old(surfaces))
      ensures Now().Books() == AllShown(old(Now()))
    {
      AnswerBatches();
      AnswerSurfaces();
    }

    /** `frame_callbacks_after_present`: with an app to wait for, everything listed
        becomes the youngest batch. */
    method AfterPresent(app: bool)
      requires Valid()
      modifies this`answers, this`count, this`batches, this`surfaces
      ensures Valid() && Now().Everything() == old(Now()).Everything() && surfaces == Emptied(old(surfaces))
      ensures if generation == 0 || !app
              then batches == [] && Answered(answers) == old(Now()).Everything() && Now().Books() == AllShown(old(Now()))
              else answers == old(answers) && batches == old(batches) + [Batch(generation, clock, Listed(old(surfaces)))]
      ensures Published(old(Now()), Now(), app)
    {
      if generation == 0 || !app {
        AfterRepaint();
        return;
      }
      ghost var v := Now();
      ListsBatched(v, requested);
      var fbs := CollectLists();
      batches := batches + [Batch(generation, clock, fbs)];
      assert Now() == v.(surfaces := surfaces, batches := batches);
    }

    method CollectLists() returns (fbs: seq<Feedback>)
      modifies this`surfaces
      ensures surfaces == Emptied(old(surfaces)) && fbs == Listed(old(surfaces))
    {
      ghost var ws := surfaces;
      fbs := [];
      for i := 0 to |surfaces|
        invariant |surfaces| == |ws|
        invariant surfaces == EmptiedTo(ws, i)
        invariant fbs == Listed(ws[..i])
      {
        ListedStep(ws, i);
        fbs := fbs + surfaces[i].feedbacks;
        surfaces := surfaces[i := surfaces[i].(feedbacks := [])];
      }
      assert ws[..|ws|] == ws;
    }

    // ---- requests --------------------------------------------------------------------------------------

    method FindSurface(s: nat) returns (i: nat)
      ensures i <= |surfaces|
      ensures if i < |surfaces| then surfaces[i].surface == s else !Live(surfaces, s)
    {
      i := 0;
      while i < |surfaces|
        invariant 0 <= i <= |surfaces| && forall k :: 0 <= k < i ==> surfaces[k].surface != s
      {
        if surfaces[i].surface == s {
          return;
        }
        i := i + 1;
      }
    }

    /** `presentation_feedback` */
    method Request(s: nat)
      requires Valid()
      modifies this`surfaces, this`nextFeedback, this`requested
      ensures Valid()
      ensures requested == old(requested) + if Live(old(surfaces), s) then [Feedback(old(nextFeedback), s)] else []
      ensures Asked(old(Now()), Now(), s)
    {
      var i := FindSurface(s);
      if i == |surfaces| {
        return;
      }
      RequestSound(Now(), requested, i);
      Add(i, s);
    }

    method Add(i: nat, s: nat)
      requires i < |surfaces| && surfaces[i].surface == s
      modifies this`surfaces, this`nextFeedback, this`requested
      ensures Now() == old(Now()).(surfaces := Appended(old(surfaces), i, Feedback(old(nextFeedback), s)),
                                   nextFeedback := old(nextFeedback) + 1)
      ensures requested == old(requested) + [Feedback(old(nextFeedback), s)]
    {
      surfaces := Appended(surfaces, i, Feedback(nextFeedback, s));
      requested := requested + [Feedback(nextFeedback, s)];
      nextFeedback := nextFeedback + 1;
    }

    /** New surfaces go to the head of the list. */
    method CreateSurface()
      requires Valid()
      modifies this`surfaces, this`nextSurface
      ensures Valid()
      ensures Now() == old(Now()).(surfaces := [Waiting(old(nextSurface), [])] + old(surfaces),
                                   nextSurface := old(nextSurface) + 1)
    {
      ghost var v := Now();
      CreateSound(v, requested);
      surfaces := [Waiting(nextSurface, [])] + surfaces;
      nextSurface := nextSurface + 1;
      assert Now() == v.(surfaces := surfaces, nextSurface := nextSurface);
    }

    /** `presentation_discard_surface` and the end of the surface. */
    method DestroySurface(s: nat)
      requires Valid()
      modifies this`surfaces, this`answers
      ensures Valid() && !Live(surfaces, s)
      ensures forall t :: t != s ==> Of(t, Answered(answers)) == Of(t, Answered(old(answers)))
      ensures Lost(old(Now()), Now(), s)
      ensures forall i :: |old(answers)| <= i < |answers| ==> answers[i].Discarded?
    {
      var i := FindSurface(s);
      if i == |surfaces| {
        return;
      }
      DestroySound(Now(), requested, i);
      Remove(i);
    }

    method Remove(i: nat)
      requires i < |surfaces|
      modifies this`surfaces, this`answers
      ensures Now() == old(Now()).(surfaces := old(surfaces)[..i] + old(surfaces)[i + 1..],
                                   answers := old(answers) + Refused(old(surfaces)[i].feedbacks))
    {
      answers := answers + Refused(surfaces[i].feedbacks);
      surfaces := surfaces[..i] + surfaces[i + 1..];
    }

    /** `presentation_feedback_destroy` of an unanswered feedback: its client is gone. */
    method Drop(f: Feedback)
      requires Valid() && f !in Answered(answers)
      modifies this`surfaces, this`batches, this`requested
      ensures Valid() && f !in Now().Everything() && requested == Except(f, old(requested))
      ensures Now() == Dropped(old(Now()), f)
    {
      DropSound(Now(), requested, f);
      requested := Except(f, requested);
      Forget(f);
    }

    method Pass(ms: nat)
      requires Valid()
      modifies this`clock
      ensures Valid() && Now() == old(Now()).(clock := old(clock) + ms)
    {
      clock := clock + ms;
    }

    method Render()
      requires Valid()
      modifies this`generation
      ensures Valid() && Now() == old(Now()).(generation := old(generation) + 1)
    {
      generation := generation + 1;
    }

    method Schedule(on: bool)
      requires Valid()
      modifies this`scheduled
      ensures Valid() && Now() == old(Now()).(scheduled := on)
    {
      scheduled := on;
    }

    /** Take a feedback out of every list and batch. */
    method Forget(f: Feedback)
      modifies this`surfaces, this`batches
      ensures Now() == Dropped(old(Now()), f)
    {
      surfaces, batches := ListsExcept(f, surfaces), BatchesExcept(f, batches);
    }

    // ---- runs ---------------------------------------------------------------------------------------------

    /** One event. */
    method Step(e: Event)
      requires Valid()
      modifies this
      ensures Valid() && Served(old(Now()), Now(), e)
    {
      match e
      case SurfaceCreated => CreateSurface();
      case TimePassed(ms) => Pass(ms);
      case FrameRendered => Render();
      case RepaintScheduled(on) => Schedule(on);
      case _ => StepFeedback(e);
    }

    method StepFeedback(e: Event)
      requires Valid() && !e.SurfaceCreated? && !e.TimePassed? && !e.FrameRendered? && !e.RepaintScheduled?
      modifies this
      ensures Valid() && Served(old(Now()), Now(), e)
    {
      if e.FramePublished? || e.AckTick? || e.FrameClockTick? {
        StepFrame(e);
      } else if e.SurfaceDestroyed? {
        DestroySurface(e.s);
      } else if e.FeedbackRequested? {
        Request(e.s);
      } else if e.f !in Answered(answers) {
        Drop(e.f);
      }
    }

    /** What may answer something. */
    method StepFrame(e: Event)
      requires Valid() && (e.FramePublished? || e.AckTick? || e.FrameClockTick?)
      modifies this
      ensures Valid() && Served(old(Now()), Now(), e)
    {
      if e.FramePublished? {
        AfterPresent(e.app);
      } else if e.AckTick? {
        var k := Tick(e.presented);
      } else {
        FrameClock();
      }
    }

    /** In every run each feedback is in exactly one place, nothing is answered
        twice, and every surface still there gets its answers in request order. */
    method Run(events: seq<Event>) returns (ghost views: seq<View>)
      requires Valid()
      modifies this
      ensures Valid()
      ensures Trace(views, events) && views[0] == old(Now()) && views[|events|] == Now()
      ensures multiset(Answered(answers)) + multiset(Batched(batches)) + multiset(Listed(surfaces)) == multiset(requested)
      ensures forall i, j :: 0 <= i < j < |answers| ==> answers[i].fb != answers[j].fb
      ensures forall s :: Live(surfaces, s) ==> Of(s, Answered(answers)) <= Of(s, requested)
    {
      SoundSingle(Now(), requested);
      views := [Now()];
      assert events[..0] == [];
      for i := 0 to |events|
        invariant Valid() && |views| == i + 1 && views[0] == old(Now()) && views[i] == Now()
        invariant Trace(views, events[..i])
      {
        Step(events[i]);
        SoundSingle(Now(), requested);
        OneMore(views, events, i, Now());
        views := views + [Now()];
      }
      assert events[..|events|] == events;
      ConservedMeans(answers, batches, surfaces, requested);
    }
  }

  lemma TickedBy(v: View, w: View, presented: nat, k: nat)
    requires k <= |v.batches| && w == v.(batches := v.batches[k..], answers := w.answers, count := w.count)
    requires w.Books() == ShowAll(v.Books(), BatchLists(v.batches[..k]))
    requires forall i :: 0 <= i < k ==> Intended(v.batches[i], presented, v.clock)
    requires (forall i :: 0 <= i < |v.batches| ==> (i < k <==> Intended(v.batches[i], presented, v.clock)))
             <==> forall i :: 0 <= i < |v.batches| ==> !Hidden(v.batches[i], presented, v.clock)
    ensures Ticked(v, w, presented, k)
  {
    forall i | 0 <= i < k
      ensures presented >= v.batches[i].generation || v.clock - v.batches[i].started >= 100
    {
      assert Intended(v.batches[i], presented, v.clock);
    }
  }

  /** Every feedback is in one place only, and was handed out before. */
  ghost predicate Single(v: View) {
    && Counted(v.answers, v.count)
    && (forall f :: multiset(v.Everything())[f] <= 1)
    && forall f :: f in v.Everything() ==> f.id < v.nextFeedback
  }

  lemma SoundSingle(v: View, requested: seq<Feedback>)
    requires v.Sound(requested)
    ensures Single(v)
  {
    forall f | f in v.Everything()
      ensures f.id < v.nextFeedback
    {
      assert f in multiset(v.Everything());
      assert f in requested;
    }
  }

  /** A run: the states in between, each what its event makes of the one before. */
  ghost predicate Trace(views: seq<View>, events: seq<Event>) {
    && |views| == |events| + 1 && (forall k :: 0 <= k < |views| ==> Single(views[k]))
    && forall k :: 0 <= k < |events| ==> Served(views[k], views[k + 1], events[k])
  }

  lemma OneMore(views: seq<View>, events: seq<Event>, i: nat, w: View)
    requires i < |events| && |views| == i + 1 && Trace(views, events[..i])
    requires Served(views[i], w, events[i]) && Single(w)
    ensures Trace(views + [w], events[..i + 1])
  {
    var more, es := views + [w], events[..i + 1];
    forall k | 0 <= k < i + 1
      ensures Served(more[k], more[k + 1], es[k])
    {
      if k < i {
        assert more[k + 1] == views[k + 1] && more[k] == views[k] && es[k] == events[..i][k];
      }
    }
  }

  /** Publish a frame for which nothing was asked. */
  method PublishEmpty(p: Presenter)
    requires p.Valid() && p.surfaces == []
    modifies p
    ensures p.Valid() && p.surfaces == [] && p.clock == old(p.clock) && p.generation == old(p.generation) + 1
    ensures p.batches == old(p.batches) + [Batch(p.generation, p.clock, [])] && p.answers == old(p.answers)
  {
    p.Render();
    ghost var clock, generation := p.clock, p.generation;
    p.AfterPresent(true);
    assert p.Now().clock == clock && p.Now().generation == generation;
  }

  /** The oldest batch is not due although a younger one is, and both are meant to be. */
  predicate Blocked(batches: seq<Batch>, presented: nat, now: nat) {
    && |batches| == 2 && !Due(batches[0], presented, now) && Due(batches[1], presented, now)
    && Intended(batches[0], presented, now) && Intended(batches[1], presented, now)
  }

  function TwoBatches(second: nat): seq<Batch> {
    [Batch(1, 0, []), Batch(2, second, [])]
  }

  /** Of two unpresented batches, the older one's age has just wrapped. */
  lemma WrapHidesAge(late: nat, wait: nat)
    requires late < TIMEOUT_MS <= wait < U32
    ensures Blocked(TwoBatches(U32 + late - wait), 0, U32 + late)
  {
    var now := U32 + late;
    assert now % U32 == late;
    DueExactly(Batch(1, 0, []), 0, now);
    DueExactly(Batch(2, U32 + late - wait, []), 0, now);
    assert now - (U32 + late - wait) == wait && wait % U32 == wait;
  }

  /** A run in which the oldest batch blocks a younger one that is due: it was
      published 2^32 ms ago and less than 100 more.  A tick then answers neither. */
  method OldestBlocks(late: nat, wait: nat) returns (p: Presenter)
    requires late < TIMEOUT_MS <= wait < U32
    ensures p.Valid() && Blocked(p.batches, 0, p.clock) && p.answers == []
  {
    p := TwoPublished(U32 + late - wait, wait);
    WrapHidesAge(late, wait);
    TickBlocked(p);
  }

  method TwoPublished(first: nat, wait: nat) returns (p: Presenter)
    ensures fresh(p) && p.Valid() && p.batches == TwoBatches(first) && p.clock == first + wait && p.answers == []
  {
    p := new Presenter();
    PublishThenWait(p, first);
    assert p.batches == [Batch(1, 0, [])];
    PublishThenWait(p, wait);
  }

  method PublishThenWait(p: Presenter, ms: nat)
    requires p.Valid() && p.surfaces == []
    modifies p
    ensures p.Valid() && p.surfaces == [] && p.clock == old(p.clock) + ms && p.generation == old(p.generation) + 1
    ensures p.batches == old(p.batches) + [Batch(p.generation, old(p.clock), [])] && p.answers == old(p.answers)
  {
    PublishEmpty(p);
    p.Pass(ms);
  }

  method TickBlocked(p: Presenter)
    requires p.Valid() && Blocked(p.batches, 0, p.clock)
    modifies p
    ensures p.Valid() && p.batches == old(p.batches) && p.clock == old(p.clock) && p.answers == old(p.answers)
  {
    var k := p.Tick(0);
  }

  /** The identities handed out so far. */
  ghost predicate Known(requested: seq<Feedback>, surfaces: seq<Waiting>, nextSurface: nat, nextFeedback: nat) {
    && (forall f :: f in requested ==> f.owner < nextSurface && f.id < nextFeedback)
    && forall i :: 0 <= i < |surfaces| ==> surfaces[i].surface < nextSurface
  }

  lemma RequestKnown(requested: seq<Feedback>, surfaces: seq<Waiting>, nextSurface: nat, nextFeedback: nat, i: nat,
                     f: Feedback)
    requires Known(requested, surfaces, nextSurface, nextFeedback) && i < |surfaces|
    requires f.id == nextFeedback && f.owner == surfaces[i].surface
    ensures Known(requested + [f], Appended(surfaces, i, f), nextSurface, nextFeedback + 1)
  {
  }

  lemma ConservedMeans(answers: seq<Answer>, batches: seq<Batch>, surfaces: seq<Waiting>, requested: seq<Feedback>)
    requires Conserved(All(answers, batches, surfaces), requested, surfaces)
    ensures multiset(Answered(answers)) + multiset(Batched(batches)) + multiset(Listed(surfaces)) == multiset(requested)
    ensures forall i, j :: 0 <= i < j < |answers| ==> answers[i].fb != answers[j].fb
    ensures forall s :: Live(surfaces, s) ==> Of(s, Answered(answers)) <= Of(s, requested)
  {
    forall i, j | 0 <= i < j < |answers|
      ensures answers[i].fb != answers[j].fb
    {
      var a := Answered(answers);
      assert a == a[..i] + [a[i]] + a[i + 1..j] + [a[j]] + a[j + 1..];
      assert multiset(All(answers, batches, surfaces))[a[i]] <= 1;
    }
    forall s | Live(surfaces, s)
      ensures Of(s, Answered(answers)) <= Of(s, requested)
    {
      OfConcat(s, Answered(answers) + Batched(batches), Listed(surfaces));
      OfConcat(s, Answered(answers), Batched(batches));
    }
  }

  function EmptiedTo(surfaces: seq<Waiting>, n: nat): seq<Waiting> {
    seq(|surfaces|, i requires 0 <= i < |surfaces| => if i < n then surfaces[i].(feedbacks := []) else surfaces[i])
  }

  /** Answering in the order of the places moves nothing past anything. */
  lemma OldestAnswered(v: View, requested: seq<Feedback>, w: View, k: nat)
    requires v.Sound(requested) && k <= |v.batches| && Counted(w.answers, w.count)
    requires w == v.(batches := v.batches[k..], answers := w.answers, count := w.count)
    requires Answered(w.answers) == Answered(v.answers) + Batched(v.batches[..k])
    ensures w.Sound(requested) && w.Everything() == v.Everything()
  {
    BatchedConcat(v.batches[..k], v.batches[k..]);
    assert v.batches == v.batches[..k] + v.batches[k..];
    Associative(Answered(v.answers), Batched(v.batches[..k]), Batched(w.batches));
  }

  lemma ListsAnswered(v: View, requested: seq<Feedback>, w: View)
    requires v.Sound(requested) && v.batches == [] && Counted(w.answers, w.count)
    requires w == v.(surfaces := Emptied(v.surfaces), answers := w.answers, count := w.count)
    requires Answered(w.answers) == Answered(v.answers) + Listed(v.surfaces)
    ensures w.Sound(requested) && w.Everything() == v.Everything()
  {
    EmptiedListed(v.surfaces);
    EmptiedOwn(v.surfaces);
    assert v.Everything() == Answered(v.answers) + Listed(v.surfaces);
    assert w.Everything() == Answered(w.answers);
  }

  lemma ListsBatched(v: View, requested: seq<Feedback>)
    requires v.Sound(requested)
    ensures var w := v.(surfaces := Emptied(v.surfaces),
                        batches := v.batches + [Batch(v.generation, v.clock, Listed(v.surfaces))]);
            w.Sound(requested) && w.Everything() == v.Everything()
  {
    var fbs := Listed(v.surfaces);
    var b := Batch(v.generation, v.clock, fbs);
    BatchedOne(v.batches, b);
    EmptiedListed(v.surfaces);
    EmptiedOwn(v.surfaces);
    AgedAppend(v.batches, v.generation, v.clock, fbs);
    var w := v.(surfaces := Emptied(v.surfaces), batches := v.batches + [b]);
    assert w.Everything() == v.Everything() by {
      Associative(Answered(v.answers), Batched(v.batches), fbs);
    }
  }

  lemma BatchedOne(batches: seq<Batch>, b: Batch)
    ensures Batched(batches + [b]) == Batched(batches) + b.feedbacks
  {
    BatchedConcat(batches, [b]);
    assert Batched([b]) == b.feedbacks;
  }

  lemma RequestSound(v: View, requested: seq<Feedback>, i: nat)
    requires v.Sound(requested) && i < |v.surfaces|
    ensures var f := Feedback(v.nextFeedback, v.surfaces[i].surface);
            v.(surfaces := Appended(v.surfaces, i, f), nextFeedback := v.nextFeedback + 1).Sound(requested + [f])
  {
    var f := Feedback(v.nextFeedback, v.surfaces[i].surface);
    RequestConserves(Answered(v.answers) + Batched(v.batches), v.surfaces, requested, i, f);
    RequestKnown(requested, v.surfaces, v.nextSurface, v.nextFeedback, i, f);
  }

  lemma CreateSound(v: View, requested: seq<Feedback>)
    requires v.Sound(requested)
    ensures v.(surfaces := [Waiting(v.nextSurface, [])] + v.surfaces, nextSurface := v.nextSurface + 1).Sound(requested)
  {
    CreateConserves(v.Everything(), requested, v.surfaces, v.nextSurface);
    var w := v.(surfaces := [Waiting(v.nextSurface, [])] + v.surfaces, nextSurface := v.nextSurface + 1);
    assert w.surfaces[1..] == v.surfaces;
    assert Listed(w.surfaces) == w.surfaces[0].feedbacks + Listed(v.surfaces);
    assert w.Everything() == v.Everything();
  }

  lemma DestroySound(v: View, requested: seq<Feedback>, i: nat)
    requires v.Sound(requested) && i < |v.surfaces|
    ensures var fbs := v.surfaces[i].feedbacks;
            var w := v.(answers := v.answers + Refused(fbs), surfaces := v.surfaces[..i] + v.surfaces[i + 1..]);
            && w.Sound(requested)
            && !Live(w.surfaces, v.surfaces[i].surface)
            && forall t :: t != v.surfaces[i].surface ==> Of(t, Answered(w.answers)) == Of(t, Answered(v.answers))
  {
    var fbs := v.surfaces[i].feedbacks;
    DiscardConserves(Answered(v.answers), Batched(v.batches), v.surfaces, requested, i);
    AnsweredMore(v.answers, fbs, v.count);
    StampedCounted(v.answers, fbs, v.count);
    forall t | t != v.surfaces[i].surface
      ensures Of(t, Answered(v.answers) + fbs) == Of(t, Answered(v.answers))
    {
      OfNone(t, fbs);
      OfConcat(t, Answered(v.answers), fbs);
    }
  }

  function Dropped(v: View, f: Feedback): View {
    v.(surfaces := ListsExcept(f, v.surfaces), batches := BatchesExcept(f, v.batches))
  }

  lemma DropSound(v: View, requested: seq<Feedback>, f: Feedback)
    requires v.Sound(requested) && f !in Answered(v.answers)
    ensures Dropped(v, f).Sound(Except(f, requested)) && f !in Dropped(v, f).Everything()
  {
    DropConserves(v.answers, v.batches, v.surfaces, requested, f);
    ExceptCount(f, requested);
    AllExcept(v.answers, v.batches, v.surfaces, f);
    ExceptGone(f, v.Everything());
    var w := Dropped(v, f);
    assert Aged(w.batches, w.generation, w.clock);
    assert Known(Except(f, requested), w.surfaces, w.nextSurface, w.nextFeedback);
  }

  lemma ExceptGone(f: Feedback, fbs: seq<Feedback>)
    ensures f !in Except(f, fbs)
  {
    ExceptCount(f, fbs);
    assert f in Except(f, fbs) ==> f in multiset(Except(f, fbs));
  }

  lemma BatchedStep(batches: seq<Batch>, k: nat)
    requires k < |batches|
    ensures Batched(batches[..k + 1]) == Batched(batches[..k]) + batches[k].feedbacks
  {
    BatchedConcat(batches[..k], [batches[k]]);
    assert batches[..k + 1] == batches[..k] + [batches[k]];
    assert Batched([batches[k]]) == batches[k].feedbacks;
  }

  lemma AgedAppend(batches: seq<Batch>, generation: nat, clock: nat, fbs: seq<Feedback>)
    requires Aged(batches, generation, clock)
    ensures Aged(batches + [Batch(generation, clock, fbs)], generation, clock)
  {
  }

  lemma EmptiedOwn(surfaces: seq<Waiting>)
    requires OwnLists(surfaces)
    ensures OwnLists(Emptied(surfaces))
    ensures forall s :: Live(Emptied(surfaces), s) <==> Live(surfaces, s)
  {
    var w := Emptied(surfaces);
    assert forall k :: 0 <= k < |w| ==> w[k].surface == surfaces[k].surface;
  }

  lemma CreateConserves(all: seq<Feedback>, requested: seq<Feedback>, surfaces: seq<Waiting>, s: nat)
    requires OwnLists(surfaces) && Conserved(all, requested, surfaces) && !Live(surfaces, s)
    requires forall f :: f in requested ==> f.owner != s
    ensures var w := [Waiting(s, [])] + surfaces;
            OwnLists(w) && Conserved(all, requested, w)
  {
    var w := [Waiting(s, [])] + surfaces;
    forall f | f in all ensures f.owner != s {
      assert f in multiset(all);
      assert f in requested;
    }
    OfNone(s, all);
    OfNone(s, requested);
    forall t | Live(w, t) ensures Of(t, all) == Of(t, requested) {
      if t != s {
        var k :| 0 <= k < |w| && w[k].surface == t;
        assert surfaces[k - 1].surface == t;
      }
    }
  }
}
