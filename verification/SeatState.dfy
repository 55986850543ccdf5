/** Keyboard focus, popup grabs and surface teardown: global state changed by
    calls that re-enter each other (unmap, grab pop, focus change, unmap). */
module SeatState {
  import opened Options

  const MAX_POPUP_GRAB := 16
  const MAX_PARENT_DEPTH := 64

  datatype Kind = NoRole | Toplevel | Popup | Subsurface | LayerSurface(wantsKeys: bool) | LockSurface

  datatype Info = Info(role: Kind, parent: Option<nat>, minimized: bool)

  datatype Drag = NoDrag | Dragging(focus: Option<nat>, origin: Option<nat>, icon: Option<nat>)

  /** Everything else that may point at a surface. */
  datatype Refs = Refs(pointer: Option<nat>, pen: Option<nat>, cursor: Option<nat>, interactive: Option<nat>,
                       drag: Drag, touches: seq<Option<nat>>)

  // ---- references ---------------------------------------------------------------------------

  predicate In(x: Option<nat>, live: set<nat>) { x.Some? ==> x.value in live }

  predicate DragIn(d: Drag, live: set<nat>) {
    d.Dragging? ==> In(d.focus, live) && In(d.origin, live) && In(d.icon, live)
  }

  predicate Drags(d: Drag, s: nat) {
    d.Dragging? && (d.focus == Some(s) || d.origin == Some(s) || d.icon == Some(s))
  }

  predicate RefsIn(r: Refs, live: set<nat>) {
    && In(r.pointer, live) && In(r.pen, live) && In(r.cursor, live) && In(r.interactive, live)
    && DragIn(r.drag, live)
    && forall k :: 0 <= k < |r.touches| ==> In(r.touches[k], live)
  }

  function Unless(x: Option<nat>, s: nat): Option<nat> { if x == Some(s) then None else x }

  /** A surface leaving mid-drag or mid-move ends the drag or the move. */
  function EndInvolvement(r: Refs, s: nat): Refs {
    var moved := r.(interactive := Unless(r.interactive, s));
    match r.drag
    case NoDrag => moved
    case Dragging(f, o, i) =>
      if o == Some(s) || i == Some(s) then moved.(drag := NoDrag, pointer := None)
      else moved.(drag := Dragging(Unless(f, s), o, i))
  }

  /** Pointer, pen and touch let go of a surface. */
  function LetGo(r: Refs, s: nat): Refs {
    r.(pointer := Unless(r.pointer, s), pen := Unless(r.pen, s),
       touches := seq(|r.touches|, k requires 0 <= k < |r.touches| => Unless(r.touches[k], s)))
  }

  // ---- lists -----------------------------------------------------------------------------------

  ghost predicate NoDuplicates(xs: seq<nat>) {
    forall i, j :: 0 <= i < j < |xs| ==> xs[i] != xs[j]
  }

  /** The z-order without some surfaces, order kept. */
  function Without(xs: seq<nat>, gone: set<nat>): (r: seq<nat>)
    ensures forall x :: x in r <==> x in xs && x !in gone
  {
    if xs == [] then []
    else
      var front, last := Without(xs[..|xs| - 1], gone), xs[|xs| - 1];
      if last in gone then front else front + [last]
  }

  lemma {:induction false} WithoutNoDuplicates(xs: seq<nat>, gone: set<nat>)
    requires NoDuplicates(xs)
    ensures NoDuplicates(Without(xs, gone))
  {
    if xs != [] {
      var front, last := xs[..|xs| - 1], xs[|xs| - 1];
      WithoutNoDuplicates(front, gone);
      assert last !in front;
    }
  }

  lemma {:induction false} WithoutTwice(xs: seq<nat>, a: set<nat>, b: set<nat>)
    ensures Without(Without(xs, a), b) == Without(xs, a + b)
  {
    if xs != [] {
      var front, last := xs[..|xs| - 1], xs[|xs| - 1];
      WithoutTwice(front, a, b);
      if last !in a {
        var w := Without(front, a);
        assert (w + [last])[..|w|] == w;
      }
    }
  }

  lemma {:induction false} WithoutNothing(xs: seq<nat>, gone: set<nat>)
    requires forall x :: x in xs ==> x !in gone
    ensures Without(xs, gone) == xs
  {
    if xs != [] {
      WithoutNothing(xs[..|xs| - 1], gone);
      assert xs == xs[..|xs| - 1] + [xs[|xs| - 1]];
    }
  }

  /** May hold the keyboard on its own. */
  predicate Focusable(surfaces: map<nat, Info>, s: nat) {
    s in surfaces &&
    ((surfaces[s].role == Toplevel && !surfaces[s].minimized) ||
     (surfaces[s].role.LayerSurface? && surfaces[s].role.wantsKeys))
  }

  /** The topmost surface that may hold the keyboard. */
  function Topmost(surfaces: map<nat, Info>, mapped: seq<nat>): (r: Option<nat>)
    ensures r.Some? ==> r.value in mapped && Focusable(surfaces, r.value)
    ensures r.None? ==> forall s :: s in mapped ==> !Focusable(surfaces, s)
  {
    if mapped == [] then None
    else if Focusable(surfaces, mapped[|mapped| - 1]) then Some(mapped[|mapped| - 1])
    else Topmost(surfaces, mapped[..|mapped| - 1])
  }

  /** Works with keys on its own: a window that is not iconified, a panel that asks. */
  predicate TakesKeys(i: Info) {
    match i.role
    case Toplevel => !i.minimized
    case LayerSurface(wantsKeys) => wantsKeys
    case _ => false
  }

  /** `r` is the highest mapped surface that takes keys, or nothing if none does. */
  ghost predicate HighestForKeys(surfaces: map<nat, Info>, mapped: seq<nat>, r: Option<nat>) {
    match r
    case None => forall k :: 0 <= k < |mapped| && mapped[k] in surfaces ==> !TakesKeys(surfaces[mapped[k]])
    case Some(s) =>
      exists i ::
        && 0 <= i < |mapped| && mapped[i] == s && s in surfaces && TakesKeys(surfaces[s])
        && forall k :: i < k < |mapped| && mapped[k] in surfaces ==> !TakesKeys(surfaces[mapped[k]])
  }

  lemma {:induction false} TopmostHighest(surfaces: map<nat, Info>, mapped: seq<nat>)
    ensures HighestForKeys(surfaces, mapped, Topmost(surfaces, mapped))
  {
    if mapped != [] && !Focusable(surfaces, mapped[|mapped| - 1]) {
      TopmostHighest(surfaces, mapped[..|mapped| - 1]);
    }
  }

  /** Surfaces that cannot hold the keyboard do not matter to who does. */
  lemma {:induction false} TopmostWithout(surfaces: map<nat, Info>, mapped: seq<nat>, gone: set<nat>)
    requires forall s :: s in gone ==> !Focusable(surfaces, s)
    ensures Topmost(surfaces, Without(mapped, gone)) == Topmost(surfaces, mapped)
  {
    if mapped != [] {
      var front, last := mapped[..|mapped| - 1], mapped[|mapped| - 1];
      TopmostWithout(surfaces, front, gone);
      if last !in gone {
        var w := Without(front, gone);
        assert (w + [last])[..|w|] == w;
      }
    }
  }

  // ---- the grab stack --------------------------------------------------------------------------

  type Stack = seq<Option<nat>>

  ghost predicate DistinctEntries(st: Stack) {
    forall i, j :: 0 <= i < j < |st| && st[i].Some? ==> st[i] != st[j]
  }

  function Position(st: Stack, s: nat): (r: Option<nat>)
    ensures r.Some? ==> r.value < |st| && st[r.value] == Some(s)
    ensures r.None? <==> Some(s) !in st
  {
    if st == [] then None
    else if st[|st| - 1] == Some(s) then Some(|st| - 1)
    else Position(st[..|st| - 1], s)
  }

  /** The popups in the stack from index `i` upwards. */
  ghost function From(st: Stack, i: nat): set<nat> {
    set k | i <= k < |st| && st[k].Some? :: st[k].value
  }

  /** A full chain: real popups, each nested one a child of the one below. */
  ghost predicate Nested(surfaces: map<nat, Info>, st: Stack) {
    && (forall k :: 0 <= k < |st| ==> st[k].Some? && st[k].value in surfaces)
    && (forall k :: 0 < k < |st| ==> surfaces[st[k].value].parent == st[k - 1])
  }

  function ParentOf(surfaces: map<nat, Info>, s: Option<nat>): Option<nat> {
    if s.Some? && s.value in surfaces then surfaces[s.value].parent else None
  }

  /** The surface `n` links above `s`. */
  function Up(surfaces: map<nat, Info>, s: Option<nat>, n: nat): Option<nat> {
    if n == 0 then s else ParentOf(surfaces, Up(surfaces, s, n - 1))
  }

  /** Nobody comes back to itself within as many links as a walk follows. */
  ghost predicate NoShortCycle(surfaces: map<nat, Info>) {
    forall s, n: nat :: 0 < n <= MAX_PARENT_DEPTH && s in surfaces ==> Up(surfaces, Some(s), n) != Some(s)
  }

  /** The chain is a walk along the parent links. */
  lemma {:induction false} ChainUp(surfaces: map<nat, Info>, st: Stack, j: nat, m: nat)
    requires Nested(surfaces, st) && m <= j < |st|
    ensures Up(surfaces, st[j], m) == st[j - m]
    decreases m
  {
    if m > 0 {
      ChainUp(surfaces, st, j, m - 1);
      assert surfaces[st[j - m + 1].value].parent == st[j - m];
    }
  }

  lemma {:induction false} UpFromParent(surfaces: map<nat, Info>, s: Option<nat>, n: nat)
    ensures Up(surfaces, s, n + 1) == Up(surfaces, ParentOf(surfaces, s), n)
  {
    if n > 0 {
      UpFromParent(surfaces, s, n - 1);
    }
  }

  /** A popup whose parent is the top of the chain is not in the chain yet: chains
      are shorter than the cycles that can exist. */
  lemma NewPopupIsNew(surfaces: map<nat, Info>, st: Stack, s: nat)
    requires Nested(surfaces, st) && NoShortCycle(surfaces) && 0 < |st| <= MAX_POPUP_GRAB
    requires s in surfaces && surfaces[s].parent == st[|st| - 1]
    ensures Some(s) !in st
  {
    forall i | 0 <= i < |st|
      ensures st[i] != Some(s)
    {
      var m := |st| - 1 - i;
      ChainUp(surfaces, st, |st| - 1, m);
      UpFromParent(surfaces, Some(s), m);
    }
  }

  /** Who gets the keyboard when the chain ends. */
  function Restored(surfaces: map<nat, Info>, mapped: seq<nat>, prev: Option<nat>): Option<nat> {
    if prev.Some? && prev.value !in mapped then Topmost(surfaces, mapped) else prev
  }

  // ---- the state ---------------------------------------------------------------------------------

  datatype View = View(surfaces: map<nat, Info>, mapped: seq<nat>, stack: Stack, prev: Option<nat>,
                       focus: Option<nat>, locked: bool, lock: Option<nat>, refs: Refs)
  {
    ghost predicate ListSound() {
      NoDuplicates(mapped) && forall m :: m in mapped ==> m in surfaces
    }

    ghost predicate StackSound() {
      && |stack| <= MAX_POPUP_GRAB && DistinctEntries(stack)
      && forall k :: 0 <= k < |stack| && stack[k].Some? ==>
                     stack[k].value in surfaces && surfaces[stack[k].value].role == Popup
    }

    ghost predicate RefsSound() {
      In(prev, surfaces.Keys) && In(focus, surfaces.Keys) && In(lock, surfaces.Keys) && RefsIn(refs, surfaces.Keys)
    }

    ghost predicate ParentsSound() {
      forall s :: s in surfaces ==> In(surfaces[s].parent, surfaces.Keys)
    }

    /** Nothing points at a surface that does not exist, and the lists are sound;
        this holds even in the middle of a dismissal. */
    ghost predicate Sound() {
      ListSound() && StackSound() && RefsSound() && ParentsSound()
    }

    /** An active grab holds the keyboard of an unlocked session. */
    ghost predicate Pinned() {
      !locked && |stack| > 0 ==> focus == stack[|stack| - 1]
    }

    ghost predicate Valid() {
      && Sound() && Pinned() && Nested(surfaces, stack)
      && (|stack| == 0 ==> prev == None)
      && NoShortCycle(surfaces)
    }

    /** Some z-order slot, focus, cursor, grab entry, saved focus, drag, move,
        touch point, lock surface or parent link is `s`. */
    ghost predicate RefersTo(s: nat) {
      || s in mapped || Some(s) in stack || prev == Some(s) || focus == Some(s) || lock == Some(s)
      || refs.pointer == Some(s) || refs.pen == Some(s) || refs.cursor == Some(s) || refs.interactive == Some(s)
      || Drags(refs.drag, s)
      || Some(s) in refs.touches
      || exists c :: c in surfaces && surfaces[c].parent == Some(s)
    }

    /** What only the first part of an unmap lets go of. */
    ghost predicate Uninvolved(s: nat) {
      refs.interactive != Some(s) && lock != Some(s) && !Drags(refs.drag, s)
    }

    /** Where a focus request ends up: `keyboard_set_focus`. */
    function Target(s: Option<nat>): Option<nat> {
      if locked && s != lock then lock
      else if |stack| > 0 then stack[|stack| - 1]
      else s
    }

    function Focused(s: Option<nat>): View { this.(focus := Target(s)) }

    /** The first part of `surface_unmap`, before it asks whether the surface is mapped. */
    function Released(s: nat): View {
      var v := this.(refs := EndInvolvement(refs, s), lock := Unless(lock, s));
      if lock == Some(s) && focus == Some(s) then v.Focused(None) else v
    }

    /** The last part: leave the z-order and every input focus. */
    function Left(s: nat): View {
      var v := this.(mapped := Without(mapped, {s}), refs := LetGo(refs, s));
      if focus == Some(s) then v.Focused(Topmost(v.surfaces, v.mapped)) else v
    }

    /** `surface_unmap` of a surface outside the grab chain. */
    function Withdrawn(s: nat): View {
      if s in mapped then Released(s).Left(s) else Released(s)
    }

    /** Dismiss the popups above the first `n` entries, topmost first. */
    function DismissedTo(n: nat): View
      decreases |stack|
    {
      if |stack| <= n then this else Popped().DismissedTo(n)
    }

    /** The topmost popup is taken off the chain and then unmapped. */
    function Popped(): View
      requires |stack| > 0
      ensures Popped().stack == stack[..|stack| - 1]
    {
      var top, v := stack[|stack| - 1], this.(stack := stack[..|stack| - 1]);
      if top.Some? then v.Withdrawn(top.value) else v
    }

    /** The keyboard goes to the new top of the chain, or back to where it was. */
    function HandedBack(): View {
      var v, t := if |stack| == 0 then this.(prev := None) else this,
                  if |stack| == 0 then Restored(surfaces, mapped, prev) else stack[|stack| - 1];
      if focus == t then v else v.Focused(t)
    }

    /** `popup_grab_on_surface_gone` */
    function GrabGone(s: nat): View {
      var at := Position(stack, s);
      if at.None? then this
      else
        var v := DismissedTo(at.value + 1);
        v.(stack := v.stack[..Least(at.value, |v.stack|)]).HandedBack()
    }

    /** `surface_unmap` */
    function Unmapped(s: nat): View {
      var v := Released(s);
      if s !in v.mapped then v
      else if s in v.surfaces && v.surfaces[s].role == Popup then v.GrabGone(s).Left(s)
      else v.Left(s)
    }

    /** Unmapped, and out of the chain even if it was never mapped. */
    function Ungrabbed(s: nat): View {
      var v := Unmapped(s);
      if s in v.surfaces && v.surfaces[s].role == Popup then v.GrabGone(s) else v
    }

    /** The loop of `popup_grab_dismiss_all`: entries are blanked, not popped. */
    function Blanked(n: nat): View
      requires n <= |stack|
      decreases n
    {
      if n == 0 then this else BlankedOne(n - 1).Blanked(n - 1)
    }

    function BlankedOne(k: nat): View
      requires k < |stack|
      ensures BlankedOne(k).stack == stack[k := None]
    {
      var v := this.(stack := stack[k := None]);
      if stack[k].Some? then v.Withdrawn(stack[k].value) else v
    }

    /** `popup_grab_dismiss_all` */
    function DismissedAll(): View {
      if |stack| == 0 then this else Blanked(|stack|).(stack := []).HandedBack()
    }

    /** `surface_resource_destroy` */
    function Destroyed(s: nat): View {
      var v := Unmapped(s);
      var orphaned := v.(refs := v.refs.(cursor := Unless(v.refs.cursor, s)), surfaces := Orphaned(v.surfaces, s));
      var last := orphaned.GrabGone(s).Detached(s);
      last.(surfaces := last.surfaces - {s})
    }

    /** Whatever an unmap may have left behind: the saved focus and the input focuses. */
    function Detached(s: nat): View {
      var v := this.(prev := Unless(prev, s), refs := LetGo(refs, s));
      if v.focus == Some(s) then v.Focused(Topmost(v.surfaces, v.mapped)) else v
    }
  }

  function Least(a: nat, b: nat): nat { if a < b then a else b }

  /** The surfaces with every parent link to `s` cleared. */
  function Orphaned(surfaces: map<nat, Info>, s: nat): map<nat, Info> {
    map c | c in surfaces :: if surfaces[c].parent == Some(s) then surfaces[c].(parent := None) else surfaces[c]
  }

  // ---- what each part keeps --------------------------------------------------------------------------

  lemma InvolvementEnds(r: Refs, s: nat, live: set<nat>)
    requires RefsIn(r, live)
    ensures RefsIn(EndInvolvement(r, s), live)
    ensures EndInvolvement(r, s).interactive != Some(s) && !Drags(EndInvolvement(r, s).drag, s)
  {
  }

  /** Ending one surface's part in a drag or move involves no other. */
  lemma InvolvementKeeps(r: Refs, p: nat, s: nat)
    ensures EndInvolvement(r, p).interactive == Some(s) ==> r.interactive == Some(s)
    ensures Drags(EndInvolvement(r, p).drag, s) ==> Drags(r.drag, s)
    ensures EndInvolvement(r, p).cursor == r.cursor
  {
  }

  lemma LetGoKeeps(r: Refs, s: nat, live: set<nat>)
    requires RefsIn(r, live)
    ensures RefsIn(LetGo(r, s), live)
  {
  }

  lemma ReleasedSound(v: View, s: nat)
    requires v.Sound() && s in v.surfaces
    ensures v.Released(s).Sound() && v.Released(s).Uninvolved(s)
    ensures v.Pinned() ==> v.Released(s).Pinned()
  {
    InvolvementEnds(v.refs, s, v.surfaces.Keys);
  }

  lemma LeftSound(v: View, s: nat)
    requires v.Sound()
    ensures v.Left(s).Sound() && s !in v.Left(s).mapped
    ensures v.Pinned() && (|v.stack| > 0 ==> v.stack[|v.stack| - 1] != Some(s)) ==> v.Left(s).Pinned()
    ensures v.lock != Some(s) && (|v.stack| > 0 ==> v.stack[|v.stack| - 1] != Some(s)) ==> v.Left(s).focus != Some(s)
  {
    WithoutNoDuplicates(v.mapped, {s});
    LetGoKeeps(v.refs, s, v.surfaces.Keys);
  }

  /** From `v` to `w` the surfaces `gone` left the z-order; nothing that only an
      unmap of `s` itself clears came back. */
  ghost predicate Thinned(v: View, w: View, gone: set<nat>, s: nat) {
    && w.mapped == Without(v.mapped, gone)
    && w.surfaces == v.surfaces && w.prev == v.prev && w.locked == v.locked
    && w.refs.cursor == v.refs.cursor && (v.Uninvolved(s) ==> w.Uninvolved(s))
  }

  lemma ThinnedTwice(u: View, v: View, w: View, a: set<nat>, b: set<nat>, s: nat)
    requires Thinned(u, v, a, s) && Thinned(v, w, b, s)
    ensures Thinned(u, w, a + b, s)
  {
    WithoutTwice(u.mapped, a, b);
  }

  lemma ThinnedNone(u: View, w: View, s: nat)
    requires w == u.(stack := w.stack)
    ensures Thinned(u, w, {}, s)
  {
    WithoutNothing(u.mapped, {});
  }

  lemma ReleasedThins(v: View, p: nat, s: nat)
    ensures Thinned(v, v.Released(p), {}, s)
  {
    InvolvementKeeps(v.refs, p, s);
    WithoutNothing(v.mapped, {});
  }

  lemma LeftThins(v: View, p: nat, s: nat)
    ensures Thinned(v, v.Left(p), {p}, s)
  {
  }

  lemma WithdrawnThins(v: View, p: nat, s: nat)
    ensures Thinned(v, v.Withdrawn(p), {p}, s)
  {
    var r := v.Released(p);
    ReleasedThins(v, p, s);
    if p in v.mapped {
      LeftThins(r, p, s);
      ThinnedTwice(v, r, r.Left(p), {}, {p}, s);
      assert {} + {p} == {p};
    } else {
      WithoutNothing(v.mapped, {p});
      WithoutNothing(v.mapped, {});
    }
  }

  lemma WithdrawnSound(v: View, p: nat)
    requires v.Sound() && p in v.surfaces
    ensures v.Withdrawn(p).Sound()
  {
    ReleasedSound(v, p);
    if p in v.mapped {
      LeftSound(v.Released(p), p);
    }
  }

  lemma PoppedSound(v: View)
    requires v.Sound() && |v.stack| > 0
    ensures v.Popped().Sound()
  {
    var top, w := v.stack[|v.stack| - 1], v.(stack := v.stack[..|v.stack| - 1]);
    assert w.Sound();
    if top.Some? {
      WithdrawnSound(w, top.value);
    }
  }

  ghost function Present(x: Option<nat>): set<nat> { if x.Some? then {x.value} else {} }

  lemma PoppedThins(v: View, s: nat)
    requires |v.stack| > 0
    ensures Thinned(v, v.Popped(), Present(v.stack[|v.stack| - 1]), s)
  {
    var top, w := v.stack[|v.stack| - 1], v.(stack := v.stack[..|v.stack| - 1]);
    ThinnedNone(v, w, s);
    if top.Some? {
      WithdrawnThins(w, top.value, s);
      ThinnedTwice(v, w, v.Popped(), {}, {top.value}, s);
      assert {} + {top.value} == {top.value};
    }
  }

  lemma {:induction false} DismissedToThins(v: View, n: nat, s: nat)
    requires n <= |v.stack|
    ensures v.DismissedTo(n).stack == v.stack[..n] && Thinned(v, v.DismissedTo(n), From(v.stack, n), s)
    decreases |v.stack|
  {
    if n == |v.stack| {
      assert From(v.stack, n) == {};
      ThinnedNone(v, v, s);
    } else {
      var p := v.Popped();
      PoppedThins(v, s);
      DismissedToThins(p, n, s);
      ThinStep(v, p, p.DismissedTo(n), n, s);
    }
  }

  lemma ThinStep(v: View, p: View, d: View, n: nat, s: nat)
    requires n < |v.stack| && p.stack == v.stack[..|v.stack| - 1] && d.stack == p.stack[..n]
    requires Thinned(v, p, Present(v.stack[|v.stack| - 1]), s) && Thinned(p, d, From(p.stack, n), s)
    ensures d.stack == v.stack[..n] && Thinned(v, d, From(v.stack, n), s)
  {
    FromTop(v.stack, n);
    ThinnedTwice(v, p, d, Present(v.stack[|v.stack| - 1]), From(p.stack, n), s);
  }

  lemma FromTop(st: Stack, n: nat)
    requires n < |st|
    ensures From(st, n) == Present(st[|st| - 1]) + From(st[..|st| - 1], n)
  {
  }

  /** Dismissing the popups above `n`: they leave the chain and the z-order. */
  lemma {:induction false} DismissedToEffect(v: View, n: nat, s: nat)
    requires v.Sound() && n <= |v.stack|
    ensures var w := v.DismissedTo(n);
            w.Sound() && w.stack == v.stack[..n] && Thinned(v, w, From(v.stack, n), s)
    decreases |v.stack|
  {
    DismissedToThins(v, n, s);
    if n < |v.stack| {
      PoppedSound(v);
      DismissedToEffect(v.Popped(), n, s);
    }
  }

  lemma HandedBackEffect(v: View)
    requires v.Sound()
    ensures var w := v.HandedBack();
            && w.Sound() && w == v.(prev := w.prev, focus := w.focus)
            && w.prev == (if |v.stack| == 0 then None else v.prev)
            && (!v.locked ==> w.focus == if |v.stack| == 0 then Restored(v.surfaces, v.mapped, v.prev)
                                         else v.stack[|v.stack| - 1])
  {
  }

  /** Cutting the chain keeps the rest of the state sound. */
  lemma CutSound(v: View, n: nat)
    requires v.Sound() && n <= |v.stack|
    ensures v.(stack := v.stack[..n]).Sound()
  {
  }

  lemma PositionUnique(st: Stack, s: nat)
    requires DistinctEntries(st)
    ensures Position(st, s).Some? ==> Some(s) !in st[..Position(st, s).value]
  {
  }

  ghost predicate HookEffect(v: View, w: View, s: nat, i: nat)
    requires i < |v.stack|
  {
    && w.stack == v.stack[..i]
    && Thinned(v, w.(prev := v.prev), From(v.stack, i + 1), s)
    && w.prev == (if i == 0 then None else v.prev)
    && (!v.locked ==> w.focus == (if i == 0 then Restored(w.surfaces, w.mapped, v.prev) else v.stack[i - 1]))
  }

  lemma CutThenHandBack(v: View, d: View, s: nat, i: nat)
    requires v.Sound() && d.Sound() && i < |v.stack| && d.stack == v.stack[..i + 1]
    requires Thinned(v, d, From(v.stack, i + 1), s)
    ensures var w := d.(stack := v.stack[..i]).HandedBack();
            w.Sound() && HookEffect(v, w, s, i)
  {
    assert d.stack[..i] == v.stack[..i];
    CutSound(d, i);
    HandedBackEffect(d.(stack := v.stack[..i]));
  }

  /** A grabbing popup going away takes everything above it with it and hands the
      keyboard to the popup below, or, at the end of the chain, back. */
  lemma GrabGoneEffect(v: View, s: nat)
    requires v.Sound()
    ensures v.GrabGone(s).Sound() && Some(s) !in v.GrabGone(s).stack
    ensures Position(v.stack, s).None? ==> v.GrabGone(s) == v
    ensures Position(v.stack, s).Some? ==> HookEffect(v, v.GrabGone(s), s, Position(v.stack, s).value)
  {
    if Position(v.stack, s).Some? {
      PositionUnique(v.stack, s);
      GrabGoneAt(v, s, Position(v.stack, s).value);
    }
  }

  lemma GrabGoneAt(v: View, s: nat, i: nat)
    requires v.Sound() && Position(v.stack, s) == Some(i)
    ensures v.GrabGone(s).Sound() && HookEffect(v, v.GrabGone(s), s, i)
  {
    var d := v.DismissedTo(i + 1);
    DismissedToEffect(v, i + 1, s);
    GrabGoneIs(v, s, d, i);
    CutThenHandBack(v, d, s, i);
  }

  lemma GrabGoneIs(v: View, s: nat, d: View, i: nat)
    requires Position(v.stack, s) == Some(i) && d == v.DismissedTo(i + 1) && d.stack == v.stack[..i + 1]
    ensures v.GrabGone(s) == d.(stack := v.stack[..i]).HandedBack()
  {
    assert d.stack[..i] == v.stack[..i];
  }

  /** Only popups hold grabs, so the hook may run for every surface. */
  lemma UnmappedIs(v: View, s: nat)
    requires v.Sound() && s in v.surfaces
    ensures v.Unmapped(s) == if s in v.mapped then v.Released(s).GrabGone(s).Left(s) else v.Released(s)
  {
    assert v.surfaces[s].role != Popup ==> Some(s) !in v.stack;
  }

  lemma ReleasedSame(v: View, s: nat)
    ensures var r := v.Released(s);
            && r.stack == v.stack && r.mapped == v.mapped && r.prev == v.prev && r.surfaces == v.surfaces
            && r.locked == v.locked && r.refs.cursor == v.refs.cursor
  {
    InvolvementKeeps(v.refs, s, s);
  }

  lemma HookSound(r: View, s: nat)
    requires r.Sound() && r.Uninvolved(s)
    ensures var g := r.GrabGone(s);
            && g.Sound() && Some(s) !in g.stack && g.Uninvolved(s) && g.refs.cursor == r.refs.cursor
            && g.surfaces == r.surfaces && g.locked == r.locked
  {
    GrabGoneEffect(r, s);
  }

  /** Leaving the z-order after the chain ended: the popup could not have kept the keyboard. */
  lemma RestoredAfterLeaving(g: View, s: nat, prev: Option<nat>)
    requires g.stack == [] && !g.locked && g.focus == Restored(g.surfaces, g.mapped, prev)
    requires s in g.surfaces && g.surfaces[s].role == Popup
    ensures g.Left(s).focus == Restored(g.surfaces, g.Left(s).mapped, prev)
  {
    TopmostWithout(g.surfaces, g.mapped, {s});
  }

  /** `s` and everything above it left; the keyboard went down the chain or back. */
  ghost predicate ChainCut(v: View, w: View, i: nat)
    requires i < |v.stack|
  {
    && w.stack == v.stack[..i] && w.mapped == Without(v.mapped, From(v.stack, i))
    && w.prev == (if i == 0 then None else v.prev)
    && (!v.locked ==> w.focus == if i == 0 then Restored(v.surfaces, w.mapped, v.prev) else v.stack[i - 1])
  }

  lemma LeaveAfterHook(r: View, g: View, s: nat, i: nat)
    requires r.Sound() && i < |r.stack| && r.stack[i] == Some(s) && HookEffect(r, g, s, i)
    ensures ChainCut(r, g.Left(s), i)
  {
    WithoutTwice(r.mapped, From(r.stack, i + 1), {s});
    assert From(r.stack, i) == From(r.stack, i + 1) + {s};
    if i == 0 && !r.locked {
      RestoredAfterLeaving(g, s, r.prev);
    } else if i > 0 && !r.locked {
      assert g.focus != Some(s);
    }
  }

  /** Unmapping a surface that is in the chain at index `i`. */
  lemma UnmappedInChain(v: View, s: nat, i: nat)
    requires v.Sound() && s in v.mapped && Position(v.stack, s) == Some(i)
    ensures ChainCut(v, v.Unmapped(s), i)
  {
    UnmappedIs(v, s);
    ReleasedSound(v, s);
    ReleasedSame(v, s);
    GrabGoneEffect(v.Released(s), s);
    LeaveAfterHook(v.Released(s), v.Released(s).GrabGone(s), s, i);
  }

  /** Unmapping a surface that is not in the chain. */
  lemma UnmappedOutside(v: View, s: nat)
    requires v.Sound() && s in v.surfaces && Some(s) !in v.stack
    ensures var w := v.Unmapped(s);
            w.stack == v.stack && w.mapped == Without(v.mapped, {s}) && w.prev == v.prev
    ensures v.Unmapped(s) == v.Withdrawn(s)
  {
    UnmappedIs(v, s);
    if s !in v.mapped {
      WithoutNothing(v.mapped, {s});
    }
  }

  lemma UnmappedSound(v: View, s: nat)
    requires v.Sound() && s in v.surfaces
    ensures var w := v.Unmapped(s);
            && w.Sound() && w.Uninvolved(s) && s !in w.mapped && w.refs.cursor == v.refs.cursor
            && w.surfaces == v.surfaces && w.locked == v.locked
            && (s in v.mapped ==> w.focus != Some(s))
  {
    UnmappedIs(v, s);
    ReleasedSound(v, s);
    ReleasedSame(v, s);
    if s in v.mapped {
      HookSound(v.Released(s), s);
      LeftSound(v.Released(s).GrabGone(s), s);
    }
  }

  // ---- whole requests ---------------------------------------------------------------------------------

  lemma NestedPrefix(surfaces: map<nat, Info>, st: Stack, i: nat)
    requires Nested(surfaces, st) && i <= |st|
    ensures Nested(surfaces, st[..i])
  {
  }

  lemma WithdrawnPinned(v: View, s: nat)
    requires v.Sound() && s in v.surfaces && Some(s) !in v.stack && v.Pinned()
    ensures v.Withdrawn(s).Pinned()
  {
    ReleasedSound(v, s);
    ReleasedSame(v, s);
    if s in v.mapped {
      LeftSound(v.Released(s), s);
    }
  }

  /** Every unmap keeps the grab invariant, however deep the re-entry went. */
  lemma UnmappedValid(v: View, s: nat)
    requires v.Valid() && s in v.surfaces
    ensures v.Unmapped(s).Valid()
  {
    UnmappedSound(v, s);
    if Some(s) !in v.stack {
      UnmappedOutside(v, s);
      WithdrawnPinned(v, s);
    } else if s in v.mapped {
      var i := Position(v.stack, s).value;
      UnmappedInChain(v, s, i);
      NestedPrefix(v.surfaces, v.stack, i);
    } else {
      UnmappedIs(v, s);
      ReleasedSound(v, s);
      ReleasedSame(v, s);
    }
  }

  lemma GrabGoneValid(v: View, s: nat)
    requires v.Valid()
    ensures v.GrabGone(s).Valid()
  {
    GrabGoneEffect(v, s);
    if Some(s) in v.stack {
      NestedPrefix(v.surfaces, v.stack, Position(v.stack, s).value);
    }
  }

  lemma BlankedOneEffect(v: View, k: nat, s: nat)
    requires v.Sound() && k < |v.stack|
    ensures v.BlankedOne(k).Sound() && Thinned(v, v.BlankedOne(k), Present(v.stack[k]), s)
  {
    var b := v.(stack := v.stack[k := None]);
    ThinnedNone(v, b, s);
    BlankSound(v, k);
    if v.stack[k].Some? {
      WithdrawnThins(b, v.stack[k].value, s);
      WithdrawnSound(b, v.stack[k].value);
      ThinnedTwice(v, b, v.BlankedOne(k), {}, Present(v.stack[k]), s);
      assert {} + Present(v.stack[k]) == Present(v.stack[k]);
    }
  }

  lemma {:induction false} BlankedEffect(v: View, n: nat, s: nat)
    requires v.Sound() && n <= |v.stack|
    ensures v.Blanked(n).Sound() && Thinned(v, v.Blanked(n), From(v.stack[..n], 0), s)
    decreases n
  {
    if n == 0 {
      assert From(v.stack[..n], 0) == {};
      ThinnedNone(v, v, s);
    } else {
      var w := v.BlankedOne(n - 1);
      BlankedOneEffect(v, n - 1, s);
      BlankedEffect(w, n - 1, s);
      assert w.stack[..n - 1] == v.stack[..n - 1];
      FromStep(v.stack, n);
      ThinnedTwice(v, w, v.Blanked(n), Present(v.stack[n - 1]), From(v.stack[..n - 1], 0), s);
    }
  }

  lemma FromStep(st: Stack, n: nat)
    requires 0 < n <= |st|
    ensures From(st[..n], 0) == Present(st[n - 1]) + From(st[..n - 1], 0)
  {
  }

  lemma BlankSound(v: View, k: nat)
    requires v.Sound() && k < |v.stack|
    ensures v.(stack := v.stack[k := None]).Sound()
  {
  }

  /** Dismissing everything ends the chain as losing its first popup does. */
  lemma DismissedAllEffect(v: View)
    requires v.Sound() && |v.stack| > 0
    ensures v.DismissedAll().Sound() && ChainCut(v, v.DismissedAll(), 0)
    ensures v.DismissedAll().surfaces == v.surfaces && v.DismissedAll().locked == v.locked
  {
    var b := v.Blanked(|v.stack|);
    BlankedEffect(v, |v.stack|, 0);
    assert v.stack[..|v.stack|] == v.stack;
    HandedBackEffect(b.(stack := []));
  }

  // ---- teardown -------------------------------------------------------------------------------------------

  lemma OrphanedSound(v: View, s: nat, w: View)
    requires v.Sound() && v.Uninvolved(s)
    requires w == v.(refs := v.refs.(cursor := Unless(v.refs.cursor, s)), surfaces := Orphaned(v.surfaces, s))
    ensures w.Sound() && w.Uninvolved(s) && w.refs.cursor != Some(s)
    ensures w.surfaces.Keys == v.surfaces.Keys
  {
    assert w.surfaces.Keys == v.surfaces.Keys;
  }

  /** All but the z-order, the chain and the saved focus let go. */
  lemma DetachedClean(v: View, s: nat)
    requires v.Sound() && v.Uninvolved(s) && v.refs.cursor != Some(s) && s !in v.mapped && Some(s) !in v.stack
    requires forall c :: c in v.surfaces ==> v.surfaces[c].parent != Some(s)
    ensures v.Detached(s).Sound() && !v.Detached(s).RefersTo(s)
    ensures v.Pinned() ==> v.Detached(s).Pinned()
  {
    LetGoKeeps(v.refs, s, v.surfaces.Keys);
  }

  /** What nothing refers to can go. */
  lemma ForgetSound(v: View, s: nat)
    requires v.Sound() && !v.RefersTo(s)
    ensures v.(surfaces := v.surfaces - {s}).Sound() && !v.(surfaces := v.surfaces - {s}).RefersTo(s)
  {
    var w := v.(surfaces := v.surfaces - {s});
    assert w.ListSound();
    assert w.StackSound();
    assert w.RefsSound();
  }

  /** Tearing a surface down leaves nothing that refers to it and a sound seat. */
  lemma DestroyedClean(v: View, s: nat)
    requires v.Sound() && s in v.surfaces
    ensures v.Destroyed(s).Sound() && !v.Destroyed(s).RefersTo(s)
    ensures v.Destroyed(s).surfaces == Orphaned(v.surfaces, s) - {s}
  {
    UnmappedSound(v, s);
    var u := v.Unmapped(s);
    var o := u.(refs := u.refs.(cursor := Unless(u.refs.cursor, s)), surfaces := Orphaned(u.surfaces, s));
    OrphanedSound(u, s, o);
    HookSound(o, s);
    GrabGoneMaps(o, s);
    var g := o.GrabGone(s);
    DetachThenForget(g, s);
  }

  lemma DetachThenForget(g: View, s: nat)
    requires g.Sound() && g.Uninvolved(s) && g.refs.cursor != Some(s) && s !in g.mapped && Some(s) !in g.stack
    requires forall c :: c in g.surfaces ==> g.surfaces[c].parent != Some(s)
    ensures var w := g.Detached(s).(surfaces := g.surfaces - {s});
            w.Sound() && !w.RefersTo(s) && w == g.Detached(s).(surfaces := g.Detached(s).surfaces - {s})
  {
    DetachedClean(g, s);
    ForgetSound(g.Detached(s), s);
  }

  lemma GrabGoneMaps(v: View, s: nat)
    requires v.Sound()
    ensures forall m :: m in v.GrabGone(s).mapped ==> m in v.mapped
  {
    GrabGoneEffect(v, s);
  }

  /** Tearing down keeps the grab invariant: a popup chain loses what depended on
      the surface and nothing else. */
  lemma DestroyedValid(v: View, s: nat)
    requires v.Valid() && s in v.surfaces
    ensures v.Destroyed(s).Valid()
  {
    UnmappedValid(v, s);
    UnmappedSound(v, s);
    var u := v.Unmapped(s);
    var o := u.(refs := u.refs.(cursor := Unless(u.refs.cursor, s)), surfaces := Orphaned(u.surfaces, s));
    OrphanedSound(u, s, o);
    HookSound(o, s);
    GrabGoneMaps(o, s);
    GrabCutNested(u, o, s);
    OrphanedNoCycle(u.surfaces, s);
    DetachValid(o.GrabGone(s), s);
  }

  lemma DetachValid(g: View, s: nat)
    requires g.Sound() && g.Uninvolved(s) && g.refs.cursor != Some(s) && s !in g.mapped && Some(s) !in g.stack
    requires forall c :: c in g.surfaces ==> g.surfaces[c].parent != Some(s)
    requires Nested(g.surfaces, g.stack) && g.Pinned() && (|g.stack| == 0 ==> g.prev == None)
    requires NoShortCycle(g.surfaces - {s})
    ensures g.Detached(s).(surfaces := g.Detached(s).surfaces - {s}).Valid()
  {
    DetachThenForget(g, s);
    DetachedClean(g, s);
    NestedLess(g.surfaces, g.stack, s);
  }

  /** Clearing the links to `s` breaks only the part of the chain that the hook drops. */
  lemma GrabCutNested(u: View, o: View, s: nat)
    requires u.Valid() && o.Sound() && o == u.(refs := o.refs, surfaces := Orphaned(u.surfaces, s))
    ensures var g := o.GrabGone(s);
            Nested(g.surfaces, g.stack) && g.Pinned() && (|g.stack| == 0 ==> g.prev == None)
  {
    GrabGoneEffect(o, s);
    var g := o.GrabGone(s);
    assert g.surfaces == o.surfaces && |g.stack| <= |u.stack| && g.stack == u.stack[..|g.stack|];
    NestedOrphaned(u.surfaces, u.stack, |g.stack|, s);
  }

  lemma NestedOrphaned(surfaces: map<nat, Info>, st: Stack, n: nat, s: nat)
    requires Nested(surfaces, st) && n <= |st| && Some(s) !in st[..n]
    ensures Nested(Orphaned(surfaces, s), st[..n])
  {
    forall k | 0 < k < n
      ensures Orphaned(surfaces, s)[st[k].value].parent == st[k - 1]
    {
      assert st[..n][k - 1] in st[..n];
    }
  }

  lemma NestedLess(surfaces: map<nat, Info>, st: Stack, s: nat)
    requires Nested(surfaces, st) && Some(s) !in st
    ensures Nested(surfaces - {s}, st)
  {
    forall k | 0 <= k < |st|
      ensures st[k].value in surfaces - {s}
    {
      assert st[k] in st;
    }
  }

  /** Links that are only cut lead where they led before, or nowhere. */
  lemma {:induction false} FewerLinks(a: map<nat, Info>, b: map<nat, Info>, s: Option<nat>, n: nat)
    requires forall x :: ParentOf(b, Some(x)) == None || ParentOf(b, Some(x)) == ParentOf(a, Some(x))
    ensures Up(b, s, n) == None || Up(b, s, n) == Up(a, s, n)
  {
    if n > 0 {
      FewerLinks(a, b, s, n - 1);
    }
  }

  lemma FewerLinksNoCycle(a: map<nat, Info>, b: map<nat, Info>)
    requires NoShortCycle(a)
    requires forall x :: ParentOf(b, Some(x)) == None || ParentOf(b, Some(x)) == ParentOf(a, Some(x))
    ensures NoShortCycle(b)
  {
    forall s, n: nat | 0 < n <= MAX_PARENT_DEPTH && s in b
      ensures Up(b, Some(s), n) != Some(s)
    {
      FewerLinks(a, b, Some(s), n);
      if s !in a {
        FewerLinks(a, b, Some(s), 1);
        UpFromParent(b, Some(s), n - 1);
        UpNone(b, n - 1);
      }
    }
  }

  lemma {:induction false} UpNone(surfaces: map<nat, Info>, n: nat)
    ensures Up(surfaces, None, n) == None
  {
    if n > 0 {
      UpNone(surfaces, n - 1);
    }
  }

  lemma OrphanedNoCycle(surfaces: map<nat, Info>, s: nat)
    requires NoShortCycle(surfaces)
    ensures NoShortCycle(Orphaned(surfaces, s) - {s})
  {
    FewerLinksNoCycle(surfaces, Orphaned(surfaces, s) - {s});
  }
}
