/** Where the keyboard goes, said with roles, iconified windows and panels that ask for
    keys only, and what an event leaves alone. */
module SeatLaws {
  import opened Options
  import opened SeatState
  import opened SeatTrace
  import opened Seat

  /** Who is highest depends on the mapped surfaces only, and not on their parents. */
  lemma HighestSame(a: map<nat, Info>, b: map<nat, Info>, mapped: seq<nat>, r: Option<nat>)
    requires HighestForKeys(a, mapped, r)
    requires forall m :: m in mapped ==> m in a && m in b
    requires forall m :: m in mapped ==> b[m].role == a[m].role && b[m].minimized == a[m].minimized
    ensures HighestForKeys(b, mapped, r)
  {
    forall k | 0 <= k < |mapped|
      ensures TakesKeys(a[mapped[k]]) <==> TakesKeys(b[mapped[k]])
    {
      assert mapped[k] in mapped;
    }
    if r.Some? {
      var i :| 0 <= i < |mapped| && mapped[i] == r.value && r.value in a && TakesKeys(a[r.value])
               && forall k :: i < k < |mapped| && mapped[k] in a ==> !TakesKeys(a[mapped[k]]);
      assert mapped[i] in mapped;
    }
  }

  /** The focused surface of an unlocked session without a chain is about to go. */
  predicate FocusGoes(v: View, e: Event) {
    && !v.locked && v.stack == [] && v.focus.Some? && v.lock != v.focus
    && var s := v.focus.value;
       && s in v.surfaces
       && (|| (e == Minimize(s, true) && v.surfaces[s].role == Toplevel && !v.surfaces[s].minimized)
           || (e == NullBuffer(s) && s in v.mapped)
           || (e == RoleGone(s) && s in v.mapped && v.surfaces[s].role != LockSurface)
           || e == SurfaceGone(s))
  }

  lemma UnmappedPlain(v: View, s: nat)
    requires v.Sound() && !v.locked && v.stack == [] && v.focus == Some(s) && v.lock != Some(s) && s in v.surfaces
    ensures var w := v.Unmapped(s);
            && w.surfaces == v.surfaces && w.stack == [] && !w.locked && w.lock == v.lock
            && w.mapped == Without(v.mapped, {s})
            && w.focus == if s in v.mapped then Topmost(v.surfaces, w.mapped) else Some(s)
  {
    UnmappedOutside(v, s);
  }

  lemma RoleGoneMoves(v: View, s: nat)
    requires v.Valid() && FocusGoes(v, RoleGone(s))
    ensures var w := RoleLost(v, s); w.focus != Some(s) && HighestForKeys(w.surfaces, w.mapped, w.focus)
  {
    UnmappedPlain(v, s);
    UnmappedSound(v, s);
    var u := v.Unmapped(s);
    assert v.Ungrabbed(s) == u;
    TopmostHighest(u.surfaces, u.mapped);
    HighestSame(u.surfaces, RoleLost(v, s).surfaces, u.mapped, u.focus);
  }

  lemma DestroyedPlain(v: View, s: nat)
    requires v.Valid() && FocusGoes(v, SurfaceGone(s))
    ensures var w := v.Destroyed(s);
            && w.mapped == Without(v.mapped, {s})
            && w.focus == Topmost(if s in v.mapped then v.surfaces else Orphaned(v.surfaces, s), w.mapped)
  {
    UnmappedPlain(v, s);
    var u := v.Unmapped(s);
    assert Position(u.stack, s).None?;
  }

  lemma DestroyMoves(v: View, s: nat)
    requires v.Valid() && FocusGoes(v, SurfaceGone(s))
    ensures var w := v.Destroyed(s); w.focus != Some(s) && HighestForKeys(w.surfaces, w.mapped, w.focus)
  {
    DestroyedPlain(v, s);
    DestroyedClean(v, s);
    OthersHighest(v, v.Destroyed(s), s, if s in v.mapped then v.surfaces else Orphaned(v.surfaces, s));
  }

  lemma OthersHighest(v: View, w: View, s: nat, was: map<nat, Info>)
    requires v.ListSound() && w.ListSound() && w.surfaces == Orphaned(v.surfaces, s) - {s}
    requires w.mapped == Without(v.mapped, {s}) && w.focus == Topmost(was, w.mapped)
    requires was == v.surfaces || was == Orphaned(v.surfaces, s)
    ensures w.focus != Some(s) && HighestForKeys(w.surfaces, w.mapped, w.focus)
  {
    TopmostHighest(was, w.mapped);
    HighestSame(was, w.surfaces, w.mapped, w.focus);
  }

  /** When the focused window is minimised, unmapped, loses its role or is destroyed,
      and no popup chain is open, the keyboard leaves it and goes to the highest mapped
      surface that takes keys, or to nothing if there is none. */
  lemma FocusMovesDown(v: View, e: Event)
    requires v.Valid() && FocusGoes(v, e)
    ensures var w := After(v, e); w.focus != v.focus && HighestForKeys(w.surfaces, w.mapped, w.focus)
  {
    var s := v.focus.value;
    if e == RoleGone(s) {
      RoleGoneMoves(v, s);
    } else if e == SurfaceGone(s) {
      DestroyMoves(v, s);
    } else if e == NullBuffer(s) {
      UnmappedPlain(v, s);
      UnmappedSound(v, s);
      TopmostHighest(v.surfaces, v.Unmapped(s).mapped);
    } else {
      var w := MinimizedAs(v, s, true);
      TopmostHighest(w.surfaces, w.mapped);
      HighestTakesKeys(w.surfaces, w.mapped, w.focus);
    }
  }

  lemma HighestTakesKeys(surfaces: map<nat, Info>, mapped: seq<nat>, r: Option<nat>)
    requires HighestForKeys(surfaces, mapped, r)
    ensures r.Some? ==> r.value in surfaces && TakesKeys(surfaces[r.value])
  {
  }

  /** Unlocking gives the keyboard back to the chain, or else to that surface. */
  lemma UnlockGivesBack(v: View)
    requires v.Valid() && v.locked
    ensures var w := After(v, UnlockSession);
            && !w.locked && w.stack == v.stack && w.mapped == v.mapped && w.surfaces == v.surfaces
            && if v.stack == [] then HighestForKeys(w.surfaces, w.mapped, w.focus)
               else w.focus == v.stack[|v.stack| - 1]
  {
    TopmostHighest(v.surfaces, v.mapped);
  }

  /** When a chain ends in an unlocked session and the surface focused at its start is
      alive but no longer mapped, the keyboard goes to that surface too. */
  lemma ChainEndsAtHighest(views: seq<View>, gone: seq<Option<nat>>, i: nat, j: nat)
    requires Trace(views, gone) && ChainFrom(views, i, j) && !views[j + 1].locked
    requires views[i].focus.Some? && !DestroyedIn(gone, i, j, views[i].focus.value)
    requires views[i].focus.value !in views[j + 1].mapped
    ensures HighestForKeys(views[j + 1].surfaces, views[j + 1].mapped, views[j + 1].focus)
  {
    ChainEnds(views, gone, i, j);
    TopmostHighest(views[j + 1].surfaces, views[j + 1].mapped);
  }

  /** A surface that leaves takes only its own input with it: another keeps pointer,
      pen, touches, cursor and move, and a drag ends only with its origin or its icon. */
  lemma OthersKeepInput(r: Refs, s: nat, x: nat)
    requires x != s
    ensures var w := LetGo(EndInvolvement(r, s), s);
            && (r.interactive == Some(x) ==> w.interactive == Some(x))
            && (r.cursor == Some(x) ==> w.cursor == Some(x))
            && (r.pen == Some(x) ==> w.pen == Some(x))
            && |w.touches| == |r.touches|
            && (forall k :: 0 <= k < |r.touches| && r.touches[k] == Some(x) ==> w.touches[k] == Some(x))
            && (r.drag.Dragging? && (r.drag.origin == Some(s) || r.drag.icon == Some(s)) ==>
                  w.drag == NoDrag && w.pointer == None)
            && (!(r.drag.Dragging? && (r.drag.origin == Some(s) || r.drag.icon == Some(s))) ==>
                  && (r.pointer == Some(x) ==> w.pointer == Some(x))
                  && (r.drag.NoDrag? ==> w.drag.NoDrag?)
                  && (r.drag.Dragging? ==>
                        && w.drag.Dragging? && w.drag.origin == r.drag.origin && w.drag.icon == r.drag.icon
                        && (r.drag.focus == Some(x) ==> w.drag.focus == Some(x))))
  {
  }
}
