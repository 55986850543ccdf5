/** What one step of the seat does to the popup chain and to the focus saved at
    its start, and what that means when the chain ends, over every run. */
module SeatTrace {
  import opened Options
  import opened SeatState

  /** From `v` to `w` one request was served; `gone` is the surface it destroyed.
      A chain that starts saves the focus of that moment, a chain that goes on
      keeps it unless it was destroyed, and at its end the keyboard is handed back. */
  ghost predicate Tracked(v: View, w: View, gone: Option<nat>) {
    && (|v.stack| == 0 && |w.stack| > 0 ==> w.prev == v.focus)
    && (|v.stack| > 0 && |w.stack| > 0 ==> w.prev == if gone.Some? then Unless(v.prev, gone.value) else v.prev)
    && (|v.stack| > 0 && |w.stack| == 0 && !w.locked ==> w.focus == Restored(w.surfaces, w.mapped, v.prev))
  }

  /** A run: the states in between, and for each step what it destroyed. */
  ghost predicate Trace(views: seq<View>, gone: seq<Option<nat>>) {
    && |views| == |gone| + 1
    && forall k :: 0 <= k < |gone| ==> Tracked(views[k], views[k + 1], gone[k])
  }

  /** A chain starts with step `i` and ends with step `j`. */
  ghost predicate ChainFrom(views: seq<View>, i: nat, j: nat) {
    && i < j && j + 1 < |views| && |views[i].stack| == 0 && |views[j + 1].stack| == 0
    && forall k :: i < k <= j ==> |views[k].stack| > 0
  }

  /** The surface is destroyed by a step after `i` and before `j`. */
  ghost predicate DestroyedIn(gone: seq<Option<nat>>, i: nat, j: nat, s: nat) {
    exists k :: i < k < j && k < |gone| && gone[k] == Some(s)
  }

  /** While the chain lasts, the saved focus is that of its start until the surface
      is destroyed. */
  lemma {:induction false} SavedDuring(views: seq<View>, gone: seq<Option<nat>>, i: nat, k: nat)
    requires Trace(views, gone) && i < k < |views| && |views[i].stack| == 0
    requires forall m :: i < m <= k ==> |views[m].stack| > 0
    ensures var start := views[i].focus;
            views[k].prev == if start.Some? && DestroyedIn(gone, i, k, start.value) then None else start
    decreases k
  {
    var start := views[i].focus;
    assert Tracked(views[k - 1], views[k], gone[k - 1]);
    if k == i + 1 {
      assert start.Some? ==> !DestroyedIn(gone, i, k, start.value);
    } else {
      SavedDuring(views, gone, i, k - 1);
      if start.Some? {
        assert DestroyedIn(gone, i, k, start.value) <==>
               DestroyedIn(gone, i, k - 1, start.value) || gone[k - 1] == Some(start.value);
      }
    }
  }

  /** When a chain ends in an unlocked session, the keyboard goes to the surface that
      had it before the chain if that is still mapped, to the topmost focusable one
      if it is alive but unmapped, and to nothing if there was none or it was
      destroyed in the meantime. */
  lemma ChainEnds(views: seq<View>, gone: seq<Option<nat>>, i: nat, j: nat)
    requires Trace(views, gone) && ChainFrom(views, i, j) && !views[j + 1].locked
    ensures var start, end := views[i].focus, views[j + 1];
            end.focus ==
            if start.None? || DestroyedIn(gone, i, j, start.value) then None
            else if start.value in end.mapped then start
            else Topmost(end.surfaces, end.mapped)
  {
    SavedDuring(views, gone, i, j);
    assert Tracked(views[j], views[j + 1], gone[j]);
  }

  /** So the design's rule, the old surface or else the topmost focusable one, is
      kept exactly unless there was no focus, or its surface was destroyed, while at
      the end some window could take the keyboard. */
  lemma RuleKeptExactly(views: seq<View>, gone: seq<Option<nat>>, i: nat, j: nat)
    requires Trace(views, gone) && ChainFrom(views, i, j) && !views[j + 1].locked
    ensures var start, end := views[i].focus, views[j + 1];
            var alive := start.Some? && !DestroyedIn(gone, i, j, start.value);
            end.focus == (if alive && start.value in end.mapped then start else Topmost(end.surfaces, end.mapped))
            <==> alive || Topmost(end.surfaces, end.mapped).None?
  {
    ChainEnds(views, gone, i, j);
  }

  // ---- every request is such a step ---------------------------------------------------------------------

  /** Who is topmost depends only on the mapped surfaces. */
  lemma {:induction false} TopmostSame(a: map<nat, Info>, b: map<nat, Info>, mapped: seq<nat>)
    requires forall m :: m in mapped ==> (Focusable(a, m) <==> Focusable(b, m))
    ensures Topmost(a, mapped) == Topmost(b, mapped)
  {
    if mapped != [] {
      TopmostSame(a, b, mapped[..|mapped| - 1]);
    }
  }

  lemma ChainCutTracked(v: View, w: View, i: nat)
    requires i < |v.stack| && ChainCut(v, w, i) && w.surfaces == v.surfaces && w.locked == v.locked
    ensures Tracked(v, w, None)
  {
  }

  lemma UnmappedTracked(v: View, s: nat)
    requires v.Valid() && s in v.surfaces
    ensures Tracked(v, v.Unmapped(s), None)
  {
    UnmappedSound(v, s);
    if Some(s) !in v.stack {
      UnmappedOutside(v, s);
    } else if s in v.mapped {
      UnmappedInChain(v, s, Position(v.stack, s).value);
    } else {
      UnmappedIs(v, s);
      ReleasedSame(v, s);
    }
  }

  lemma DismissedAllTracked(v: View)
    requires v.Sound()
    ensures Tracked(v, v.DismissedAll(), None)
  {
    if |v.stack| > 0 {
      DismissedAllEffect(v);
    }
  }

  lemma GrabGoneTracked(v: View, s: nat)
    requires v.Sound()
    ensures Tracked(v, v.GrabGone(s), None) && v.GrabGone(s).surfaces == v.surfaces && v.GrabGone(s).locked == v.locked
    ensures |v.stack| == 0 ==> v.GrabGone(s) == v
    ensures |v.stack| > 0 && |v.GrabGone(s).stack| > 0 ==> v.GrabGone(s).prev == v.prev
  {
    GrabGoneEffect(v, s);
  }

  /** Losing a role, mapped or not. */
  lemma UngrabbedTracked(v: View, s: nat)
    requires v.Valid() && s in v.surfaces
    ensures Tracked(v, v.Ungrabbed(s), None) && v.Ungrabbed(s).surfaces == v.surfaces
  {
    UnmappedTracked(v, s);
    UnmappedValid(v, s);
    UnmappedSound(v, s);
    GrabGoneTracked(v.Unmapped(s), s);
  }

  /** Changing a surface that is not mapped matters to nobody's focus. */
  lemma ChangedTracked(v: View, w: View, w': View, gone: Option<nat>)
    requires Tracked(v, w, gone) && w' == w.(surfaces := w'.surfaces)
    requires forall m :: m in w.mapped ==> (Focusable(w.surfaces, m) <==> Focusable(w'.surfaces, m))
    ensures Tracked(v, w', gone)
  {
    TopmostSame(w.surfaces, w'.surfaces, w.mapped);
  }

  /** The end of a teardown: the saved focus goes with its surface, and the keyboard
      was not given to the surface that leaves. */
  lemma DetachedTracked(v: View, g: View, s: nat)
    requires Tracked(v, g, None) && s !in g.mapped && (|g.stack| == 0 ==> g.prev == None)
    requires |v.stack| > 0 && |g.stack| == 0 && !g.locked ==> g.focus != Some(s)
    requires |v.stack| == 0 ==> |g.stack| == 0
    ensures Tracked(v, g.Detached(s), Some(s))
  {
  }

  lemma RestoredNotGone(v: View, g: View, s: nat)
    requires Tracked(v, g, None) && s !in g.mapped && |v.stack| > 0 && |g.stack| == 0 && !g.locked
    ensures g.focus != Some(s)
  {
  }

  lemma DestroyedTracked(v: View, s: nat)
    requires v.Valid() && s in v.surfaces
    ensures Tracked(v, v.Destroyed(s), Some(s))
  {
    UnmappedTracked(v, s);
    UnmappedSound(v, s);
    UnmappedValid(v, s);
    UnmappedEnds(v, s);
    var u := v.Unmapped(s);
    var o := u.(refs := u.refs.(cursor := Unless(u.refs.cursor, s)), surfaces := Orphaned(u.surfaces, s));
    OrphanedSound(u, s, o);
    OrphanTracked(v, u, o, s);
    TornDownTracked(v, u, o, s);
    ForgottenTracked(v, o.GrabGone(s), s);
  }

  lemma UnmappedEnds(v: View, s: nat)
    requires v.Valid() && s in v.surfaces
    ensures |v.stack| == 0 ==> |v.Unmapped(s).stack| == 0
  {
    if |v.stack| == 0 {
      UnmappedOutside(v, s);
    }
  }

  /** The hook that cuts the chain of a surface which is going away. */
  lemma TornDownTracked(v: View, u: View, o: View, s: nat)
    requires Tracked(v, o, None) && u.Valid() && o.Sound() && s !in u.mapped
    requires o == u.(refs := o.refs, surfaces := Orphaned(u.surfaces, s))
    requires |v.stack| == 0 ==> |u.stack| == 0
    ensures var g := o.GrabGone(s);
            && Tracked(v, g, None) && s !in g.mapped && (|g.stack| == 0 ==> g.prev == None)
            && (|v.stack| == 0 ==> |g.stack| == 0) && g.surfaces == o.surfaces
  {
    GrabGoneTracked(o, s);
    GrabGoneMaps(o, s);
    GrabCutNested(u, o, s);
    ThenTracked(v, o, o.GrabGone(s));
  }

  lemma ForgottenTracked(v: View, g: View, s: nat)
    requires Tracked(v, g, None) && s !in g.mapped && (|g.stack| == 0 ==> g.prev == None)
    requires (|v.stack| == 0 ==> |g.stack| == 0)
    ensures var d := g.Detached(s); Tracked(v, d.(surfaces := d.surfaces - {s}), Some(s))
  {
    if |v.stack| > 0 && |g.stack| == 0 && !g.locked {
      RestoredNotGone(v, g, s);
    }
    DetachedTracked(v, g, s);
    var d := g.Detached(s);
    ChangedTracked(v, d, d.(surfaces := d.surfaces - {s}), Some(s));
  }

  lemma OrphanTracked(v: View, u: View, o: View, s: nat)
    requires Tracked(v, u, None) && o == u.(refs := o.refs, surfaces := Orphaned(u.surfaces, s))
    ensures Tracked(v, o, None)
  {
    TopmostSame(u.surfaces, o.surfaces, u.mapped);
  }

  /** Two steps on the way to one: the second starts no chain. */
  lemma ThenTracked(v: View, u: View, w: View)
    requires Tracked(v, u, None) && Tracked(u, w, None)
    requires |u.stack| == 0 ==> w == u
    requires |v.stack| == 0 ==> |u.stack| == 0
    ensures Tracked(v, w, None)
  {
  }
}
