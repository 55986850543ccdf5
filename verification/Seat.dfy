/** The seat as the compositor runs it: global fields, requests that re-enter each
    other, and every run of them. */
module Seat {
  import opened Options
  import opened SeatState
  import opened SeatTrace
  import opened Forest
  import ZOrder

  datatype Event =
    | NewSurface(s: nat)
    | RoleGiven(s: nat, role: Kind, parent: Option<nat>)
    | Reparent(s: nat, parent: Option<nat>)
    | RoleGone(s: nat)
    | FirstBuffer(s: nat, at: nat)
    | NullBuffer(s: nat)
    | Reorder(order: seq<nat>)
    | Minimize(s: nat, minimized: bool)
    | WantKeys(s: nat, wants: bool)
    | GrabRequest(s: nat)
    | PressOn(hit: Option<nat>)
    | Activate(target: Option<nat>)
    | Input(refs: Refs)
    | LockSession
    | LockRole(s: nat)
    | UnlockSession
    | SurfaceGone(s: nat)

  /** What an event destroys. */
  function Gone(e: Event): Option<nat> {
    if e.SurfaceGone? then Some(e.s) else None
  }

  function AllGone(events: seq<Event>): (r: seq<Option<nat>>)
    ensures |r| == |events| && forall k :: 0 <= k < |events| ==> r[k] == Gone(events[k])
  {
    seq(|events|, k requires 0 <= k < |events| => Gone(events[k]))
  }

  /** Shell surfaces and panels that want keys take the keyboard when they map. */
  predicate TakesFocus(i: Info) {
    i.role == Toplevel || i.role == Popup || (i.role.LayerSurface? && i.role.wantsKeys)
  }

  function Put(v: View, s: nat, info: Info): View {
    v.(surfaces := v.surfaces[s := info])
  }

  /** A popup may grab from a window or a panel if it starts a chain, else only from
      the top of the chain. */
  predicate MayGrab(v: View, s: nat) {
    && s in v.surfaces && v.surfaces[s].parent.Some? && v.surfaces[s].parent.value in v.surfaces
    && var p := v.surfaces[s].parent.value;
       if |v.stack| == 0 then v.surfaces[p].role == Toplevel || v.surfaces[p].role.LayerSurface?
       else v.surfaces[p].role == Popup && v.stack[|v.stack| - 1] == Some(p)
  }

  /** The lock surface's role object is destroyed. */
  function LockRoleGone(v: View, s: nat): View
    requires s in v.surfaces
  {
    var w := Put(v, s, v.surfaces[s].(role := NoRole)).(lock := Unless(v.lock, s));
    if v.lock == Some(s) && v.focus == Some(s) then w.Focused(None) else w
  }

  /** Any other role object is destroyed; only a subsurface loses its parent too. */
  function RoleLost(v: View, s: nat): View
    requires s in v.surfaces
  {
    var i := v.surfaces[s];
    Put(v.Ungrabbed(s), s, Info(NoRole, if i.role == Subsurface then None else i.parent, i.minimized))
  }

  function MappedAt(v: View, s: nat, at: nat): View
    requires s in v.surfaces && at <= |v.mapped|
  {
    var i, w := v.surfaces[s], v.(mapped := v.mapped[..at] + [s] + v.mapped[at..]);
    if i.role == Popup || i.role == Toplevel || i.role == LayerSurface(true) then w.Focused(Some(s)) else w
  }

  function MinimizedAs(v: View, s: nat, minimized: bool): View
    requires s in v.surfaces
  {
    var w := Put(v, s, v.surfaces[s].(minimized := minimized));
    if minimized && v.focus == Some(s) then w.Focused(Topmost(w.surfaces, w.mapped)) else w
  }

  function Grabbed(v: View, s: nat): View {
    v.(prev := if |v.stack| == 0 then v.focus else v.prev, stack := v.stack + [Some(s)]).Focused(Some(s))
  }

  /** What each event means; what is turned away changes nothing. */
  ghost function After(v: View, e: Event): View {
    match e
    case NewSurface(s) => if s in v.surfaces then v else Put(v, s, Info(NoRole, None, false))
    case RoleGiven(s, role, parent) =>
      if s in v.surfaces && In(parent, v.surfaces.Keys) && v.surfaces[s].role == NoRole && !Reaches(v.surfaces, s, parent)
      then Put(v, s, v.surfaces[s].(role := role, parent := parent)) else v
    case Reparent(s, parent) =>
      if s in v.surfaces && In(parent, v.surfaces.Keys) && v.surfaces[s].role == Toplevel && !Reaches(v.surfaces, s, parent)
      then Put(v, s, v.surfaces[s].(parent := parent)) else v
    case RoleGone(s) =>
      if s !in v.surfaces then v else if v.surfaces[s].role == LockSurface then LockRoleGone(v, s) else RoleLost(v, s)
    case _ => AfterMapped(v, e)
  }

  ghost function AfterMapped(v: View, e: Event): View {
    match e
    case FirstBuffer(s, at) =>
      if s in v.surfaces && at <= |v.mapped| && s !in v.mapped && |v.mapped| < 64
      then MappedAt(v, s, at) else v
    case NullBuffer(s) => if s in v.surfaces then v.Unmapped(s) else v
    case Reorder(order) => if multiset(order) == multiset(v.mapped) then v.(mapped := order) else v
    case _ => AfterFlags(v, e)
  }

  ghost function AfterFlags(v: View, e: Event): View {
    match e
    case Minimize(s, minimized) =>
      if s in v.surfaces && v.surfaces[s].role == Toplevel && v.surfaces[s].minimized != minimized
      then MinimizedAs(v, s, minimized) else v
    case WantKeys(s, wants) =>
      if s in v.surfaces && v.surfaces[s].role.LayerSurface?
      then Put(v, s, v.surfaces[s].(role := LayerSurface(wants))) else v
    case _ => AfterInput(v, e)
  }

  ghost function AfterInput(v: View, e: Event): View {
    match e
    case GrabRequest(s) =>
      if s in v.surfaces && v.surfaces[s].role == Popup && MayGrab(v, s) && |v.stack| < 16
      then Grabbed(v, s) else v
    case PressOn(hit) =>
      if exists p :: Some(p) in v.stack && Reaches(v.surfaces, p, hit) then v else v.DismissedAll()
    case Activate(target) => if In(target, v.surfaces.Keys) then v.Focused(target) else v
    case Input(r) => if RefsIn(r, v.surfaces.Keys) then v.(refs := r) else v
    case _ => AfterSession(v, e)
  }

  ghost function AfterSession(v: View, e: Event): View {
    match e
    case LockSession => v.(locked := true).Focused(None).(refs := Idle(v.refs))
    case LockRole(s) =>
      if s in v.surfaces && v.locked && v.surfaces[s].role == NoRole && v.lock.None?
      then Put(v, s, v.surfaces[s].(role := LockSurface)).(lock := Some(s)).Focused(Some(s)) else v
    case UnlockSession =>
      if v.locked
      then v.(locked := false).Focused(Topmost(v.surfaces, v.mapped)).(refs := v.refs.(pointer := None)) else v
    case SurfaceGone(s) => if s in v.surfaces then v.Destroyed(s) else v
    case _ => v
  }

  class Seat {
    var surfaces: map<nat, Info>
    var mapped: seq<nat>
    var stack: Stack
    var prev: Option<nat>
    var focus: Option<nat>
    var locked: bool
    var lock: Option<nat>
    var refs: Refs

    ghost function Now(): View
      reads this
    {
      View(surfaces, mapped, stack, prev, focus, locked, lock, refs)
    }

    ghost predicate Valid()
      reads this
    {
      Now().Valid()
    }

    constructor ()
      ensures Valid() && surfaces == map[] && mapped == [] && stack == [] && focus == None && !locked
    {
      surfaces, mapped, stack := map[], [], [];
      prev, focus, locked, lock := None, None, false, None;
      refs := Refs(None, None, None, None, NoDrag, []);
      new;
      assert NoShortCycle(surfaces);
    }

    // ---- the keyboard ---------------------------------------------------------------------------

    /** `keyboard_set_focus` */
    method SetFocus(s: Option<nat>)
      modifies this`focus
      ensures Now() == old(Now()).Focused(s)
    {
      var t := s;
      if locked && s != lock {
        t := lock;
      } else if |stack| > 0 {
        var top := stack[|stack| - 1];
        if t != top {
          t := top;
        }
      }
      if focus != t {
        focus := t;
      }
    }

    /** `topmost_focusable` */
    method FindTopmost() returns (r: Option<nat>)
      ensures r == Topmost(surfaces, mapped) && HighestForKeys(surfaces, mapped, r)
    {
      TopmostHighest(surfaces, mapped);
      var i := |mapped|;
      assert mapped[..i] == mapped;
      while i > 0
        invariant 0 <= i <= |mapped|
        invariant Topmost(surfaces, mapped[..i]) == Topmost(surfaces, mapped)
      {
        if Focusable(surfaces, mapped[i - 1]) {
          return Some(mapped[i - 1]);
        }
        assert mapped[..i][..i - 1] == mapped[..i - 1];
        i := i - 1;
      }
      return None;
    }

    // ---- unmapping, which re-enters itself through the grab hook -----------------------------------

    method Release(s: nat)
      modifies this`refs, this`lock, this`focus
      ensures Now() == old(Now()).Released(s)
    {
      refs := EndInvolvement(refs, s);
      if lock == Some(s) {
        lock := None;
        if focus == Some(s) {
          SetFocus(None);
        }
      }
    }

    method Leave(s: nat)
      modifies this`mapped, this`refs, this`focus
      ensures Now() == old(Now()).Left(s)
    {
      mapped := Without(mapped, {s});
      refs := LetGo(refs, s);
      if focus == Some(s) {
        var top := FindTopmost();
        SetFocus(top);
      }
    }

    /** `surface_unmap` */
    method Unmap(s: nat)
      requires Now().Sound() && s in surfaces
      modifies this
      ensures Now() == old(Now()).Unmapped(s)
      ensures old(Valid()) ==> Valid()
      decreases |stack|, 3
    {
      if Now().Valid() {
        UnmappedValid(Now(), s);
      }
      ReleasedSound(Now(), s);
      Release(s);
      if s !in mapped {
        return;
      }
      if surfaces[s].role == Popup {
        GrabGone(s);
      }
      Leave(s);
    }

    method FindEntry(s: nat) returns (r: Option<nat>)
      requires DistinctEntries(stack)
      ensures r == Position(stack, s)
    {
      for i := 0 to |stack|
        invariant forall k :: 0 <= k < i ==> stack[k] != Some(s)
      {
        if stack[i] == Some(s) {
          return Some(i);
        }
      }
      return None;
    }

    /** `popup_grab_on_surface_gone` */
    method GrabGone(s: nat)
      requires Now().Sound()
      modifies this
      ensures Now() == old(Now()).GrabGone(s)
      decreases |stack|, 2
    {
      var at := FindEntry(s);
      if at.None? {
        return;
      }
      DismissedToEffect(Now(), at.value + 1, s);
      DismissReaches(at.value);
      stack := stack[..at.value];
      HandBack();
    }

    /** Pop and unmap every grabbing popup above `idx`, topmost first. */
    method DismissReaches(idx: nat)
      requires Now().Sound() && idx < |stack|
      modifies this
      ensures Now() == old(Now()).DismissedTo(idx + 1)
      decreases |stack|, 1
    {
      while |stack| > idx + 1
        invariant Now().Sound() && idx < |stack| <= old(|stack|)
        invariant Now().DismissedTo(idx + 1) == old(Now()).DismissedTo(idx + 1)
        decreases |stack|
      {
        PopTop();
      }
    }

    method PopTop()
      requires Now().Sound() && |stack| > 0
      modifies this
      ensures Now() == old(Now()).Popped() && Now().Sound()
      decreases |stack|, 0
    {
      PoppedSound(Now());
      CutSound(Now(), |stack| - 1);
      var p := stack[|stack| - 1];
      stack := stack[..|stack| - 1];
      if p.Some? {
        assert Some(p.value) !in stack;
        UnmappedOutside(Now(), p.value);
        Unmap(p.value);
      }
    }

    /** The end of both dismissals: hand the keyboard down the chain or back. */
    method HandBack()
      modifies this`prev, this`focus
      ensures Now() == old(Now()).HandedBack()
    {
      if |stack| == 0 {
        var was := prev;
        prev := None;
        if was.Some? && was.value !in mapped {
          was := FindTopmost();
        }
        if focus != was {
          SetFocus(was);
        }
      } else {
        var top := stack[|stack| - 1];
        if focus != top {
          SetFocus(top);
        }
      }
    }

    // ---- the grab requests ---------------------------------------------------------------------------

    /** `popup_grab_dismiss_all` */
    method DismissAll()
      requires Valid()
      modifies this
      ensures Valid() && Now() == old(Now()).DismissedAll()
      ensures stack == [] && prev == None
      ensures old(|stack|) > 0 ==> ChainCut(old(Now()), Now(), 0)
    {
      if |stack| == 0 {
        return;
      }
      DismissedAllEffect(Now());
      BlankAll();
      stack := [];
      HandBack();
    }

    method BlankAll()
      requires Now().Sound()
      modifies this
      ensures Now() == old(Now()).Blanked(old(|stack|))
    {
      var i := |stack|;
      while i > 0
        invariant 0 <= i <= |stack| && Now().Sound()
        invariant Now().Blanked(i) == old(Now()).Blanked(old(|stack|))
      {
        i := i - 1;
        BlankEntry(i);
      }
    }

    method BlankEntry(i: nat)
      requires Now().Sound() && i < |stack|
      modifies this
      ensures Now() == old(Now()).BlankedOne(i) && Now().Sound()
    {
      BlankedOneEffect(Now(), i, 0);
      BlankSound(Now(), i);
      var p := stack[i];
      stack := stack[i := None];
      if p.Some? {
        assert Some(p.value) !in stack;
        UnmappedOutside(Now(), p.value);
        Unmap(p.value);
      }
    }

    /** A press outside the whole chain dismisses it. */
    method Press(hit: Option<nat>)
      requires Valid()
      modifies this
      ensures Valid()
      ensures Now() == if exists p :: Some(p) in old(stack) && Reaches(old(surfaces), p, hit) then old(Now())
                       else old(Now()).DismissedAll()
    {
      var within := WithinGrab(surfaces, stack, hit);
      if |stack| > 0 && !within {
        DismissAll();
      }
    }

    /** `popup_grab_parent_ok` */
    function ParentOk(s: nat): bool
      reads this`surfaces, this`stack
      requires s in surfaces
    {
      match ParentOf(surfaces, Some(s))
      case None => false
      case Some(p) =>
        p in surfaces &&
        match surfaces[p].role
        case Toplevel => |stack| == 0
        case LayerSurface(_) => |stack| == 0
        case Popup => |stack| > 0 && stack[|stack| - 1] == Some(p)
        case _ => false
    }

    /** `popup_grab`: false is a protocol error. */
    method Grab(s: nat) returns (ok: bool)
      requires Valid() && s in surfaces
      modifies this`stack, this`prev, this`focus
      ensures Valid()
      ensures ok <==> surfaces[s].role != Popup || MayGrab(old(Now()), s)
      ensures if ok && surfaces[s].role == Popup && old(|stack|) < MAX_POPUP_GRAB
              then && Some(s) !in old(stack) && stack == old(stack) + [Some(s)]
                   && prev == (if old(|stack|) == 0 then old(focus) else old(prev))
                   && (!locked ==> focus == Some(s))
                   && focus == Now().Target(Some(s))
              else Now() == old(Now())
      ensures Now() == AfterInput(old(Now()), GrabRequest(s))
    {
      if surfaces[s].role != Popup {
        return true;
      }
      if !ParentOk(s) {
        return false;
      }
      if |stack| >= MAX_POPUP_GRAB {
        return true;
      }
      GrabbedValid(Now(), s);
      if |stack| == 0 {
        prev := focus;
      }
      stack := stack + [Some(s)];
      SetFocus(Some(s));
      return true;
    }

    // ---- surfaces and roles ------------------------------------------------------------------------------

    /** `compositor_create_surface` */
    method Create(s: nat)
      requires Valid() && s !in surfaces
      modifies this`surfaces
      ensures Valid() && surfaces == old(surfaces)[s := Info(NoRole, None, false)]
    {
      CreatedValid(Now(), s);
      surfaces := surfaces[s := Info(NoRole, None, false)];
    }

    /** A role request, with the parent it links to; refused for a surface that has
        a role, and for a link that would close a cycle within reach. */
    method GiveRole(s: nat, role: Kind, parent: Option<nat>) returns (ok: bool)
      requires Valid() && s in surfaces && In(parent, surfaces.Keys)
      modifies this`surfaces
      ensures Valid() && ok == (old(surfaces)[s].role == NoRole && !Reaches(old(surfaces), s, parent))
      ensures surfaces == if ok then old(surfaces)[s := old(surfaces)[s].(role := role, parent := parent)] else old(surfaces)
    {
      if surfaces[s].role != NoRole {
        return false;
      }
      var cycle := IsAncestor(surfaces, s, parent);
      if cycle {
        return false;
      }
      LinkKeeps(surfaces, s, surfaces[s].(role := role, parent := parent));
      ChangedValid(Now(), s, surfaces[s].(role := role, parent := parent));
      surfaces := surfaces[s := surfaces[s].(role := role, parent := parent)];
      return true;
    }

    /** `xt_set_parent` */
    method SetParent(s: nat, parent: Option<nat>) returns (ok: bool)
      requires Valid() && s in surfaces && surfaces[s].role == Toplevel && In(parent, surfaces.Keys)
      modifies this`surfaces
      ensures Valid() && ok == !Reaches(old(surfaces), s, parent)
      ensures surfaces == if ok then old(surfaces)[s := old(surfaces)[s].(parent := parent)] else old(surfaces)
    {
      var cycle := IsAncestor(surfaces, s, parent);
      if cycle {
        return false;
      }
      LinkKeeps(surfaces, s, surfaces[s].(parent := parent));
      ChangedValid(Now(), s, surfaces[s].(parent := parent));
      surfaces := surfaces[s := surfaces[s].(parent := parent)];
      return true;
    }

    /** The role object of a window, popup, subsurface or panel is destroyed. */
    method DropRole(s: nat)
      requires Valid() && s in surfaces && surfaces[s].role != LockSurface
      modifies this
      ensures Valid() && Some(s) !in stack && s !in mapped
      ensures surfaces == old(surfaces)[s := Info(NoRole,
                                                  if old(surfaces)[s].role == Subsurface then None
                                                  else old(surfaces)[s].parent,
                                                  old(surfaces)[s].minimized)]
      ensures Now() == old(Now()).Ungrabbed(s).(surfaces := surfaces)
    {
      UnmapAndUngrab(s);
      var kept := if surfaces[s].role == Subsurface then None else surfaces[s].parent;
      CutKeeps(surfaces, s, surfaces[s].(role := NoRole, parent := kept));
      ChangedValid(Now(), s, surfaces[s].(role := NoRole, parent := kept));
      surfaces := surfaces[s := surfaces[s].(role := NoRole, parent := kept)];
    }

    /** A grab comes before the first map, so the unmap may have missed it. */
    method UnmapAndUngrab(s: nat)
      requires Valid() && s in surfaces
      modifies this
      ensures Valid() && surfaces == old(surfaces) && Some(s) !in stack && s !in mapped
      ensures Now() == old(Now()).Ungrabbed(s)
    {
      UnmappedSound(Now(), s);
      Unmap(s);
      if surfaces[s].role == Popup {
        GrabGoneValid(Now(), s);
        GrabGoneEffect(Now(), s);
        GrabGoneMaps(Now(), s);
        GrabGone(s);
      }
    }

    /** `slock_surface_resource_destroy` */
    method DropLockSurface(s: nat)
      requires Valid() && s in surfaces && surfaces[s].role == LockSurface
      modifies this`surfaces, this`lock, this`focus
      ensures Valid() && surfaces == old(surfaces)[s := old(surfaces)[s].(role := NoRole)]
      ensures lock == Unless(old(lock), s)
      ensures focus == if old(lock) == Some(s) && old(focus) == Some(s) then Now().Target(None) else old(focus)
      ensures Now() == LockRoleGone(old(Now()), s)
    {
      CutKeeps(surfaces, s, surfaces[s].(role := NoRole));
      ChangedValid(Now(), s, surfaces[s].(role := NoRole));
      surfaces := surfaces[s := surfaces[s].(role := NoRole)];
      if lock == Some(s) {
        lock := None;
        if focus == Some(s) {
          FocusedValid(Now(), None);
          SetFocus(None);
        }
      }
    }

    // ---- the z-order ---------------------------------------------------------------------------------------

    /** `surface_map`, at the place its band gives it. */
    method MapAt(s: nat, at: nat)
      requires Valid() && s in surfaces && at <= |mapped|
      modifies this`mapped, this`focus
      ensures Valid()
      ensures mapped == if s in old(mapped) || old(|mapped|) >= ZOrder.MAX_SURFACES then old(mapped)
                        else old(mapped)[..at] + [s] + old(mapped)[at..]
      ensures focus == if mapped != old(mapped) && TakesFocus(surfaces[s]) then Now().Target(Some(s)) else old(focus)
      ensures s !in old(mapped) && old(|mapped|) < ZOrder.MAX_SURFACES ==> Now() == MappedAt(old(Now()), s, at)
    {
      if s in mapped || |mapped| >= ZOrder.MAX_SURFACES {
        return;
      }
      RestackedValid(Now(), mapped[..at] + [s] + mapped[at..]);
      mapped := mapped[..at] + [s] + mapped[at..];
      assert |mapped| != |old(mapped)|;
      if TakesFocus(surfaces[s]) {
        FocusedValid(Now(), Some(s));
        SetFocus(Some(s));
      }
    }

    /** Raising and lowering reorder the list. */
    method Restack(order: seq<nat>)
      requires Valid() && multiset(order) == multiset(mapped)
      modifies this`mapped
      ensures Valid() && mapped == order
    {
      PermutedNoDuplicates(mapped, order);
      RestackedValid(Now(), order);
      mapped := order;
    }

    /** `surface_set_minimized` */
    method SetMinimized(s: nat, minimized: bool)
      requires Valid() && s in surfaces
      modifies this`surfaces, this`focus
      ensures Valid()
      ensures surfaces == if old(surfaces)[s].role == Toplevel
                          then old(surfaces)[s := old(surfaces)[s].(minimized := minimized)]
                          else old(surfaces)
      ensures focus == if surfaces != old(surfaces) && minimized && old(focus) == Some(s)
                       then Now().Target(Topmost(surfaces, mapped)) else old(focus)
      ensures surfaces != old(surfaces) && minimized && old(focus) == Some(s) && !locked && stack == [] ==>
                focus != Some(s) && HighestForKeys(surfaces, mapped, focus)
      ensures Now() == AfterFlags(old(Now()), Minimize(s, minimized))
    {
      if surfaces[s].role != Toplevel || surfaces[s].minimized == minimized {
        assert surfaces[s].role == Toplevel ==> surfaces == surfaces[s := surfaces[s].(minimized := minimized)];
        return;
      }
      CutKeeps(surfaces, s, surfaces[s].(minimized := minimized));
      ChangedValid(Now(), s, surfaces[s].(minimized := minimized));
      surfaces := surfaces[s := surfaces[s].(minimized := minimized)];
      if minimized && focus == Some(s) {
        var top := FindTopmost();
        FocusedValid(Now(), top);
        SetFocus(top);
      }
    }

    /** `layer_surface_set_kbd`: a panel may ask for keys, or stop asking; nobody's
        focus moves. */
    method SetWantsKeys(s: nat, wants: bool)
      requires Valid() && s in surfaces && surfaces[s].role.LayerSurface?
      modifies this`surfaces
      ensures Valid() && surfaces == old(surfaces)[s := old(surfaces)[s].(role := LayerSurface(wants))]
    {
      CutKeeps(surfaces, s, surfaces[s].(role := LayerSurface(wants)));
      ChangedValid(Now(), s, surfaces[s].(role := LayerSurface(wants)));
      surfaces := surfaces[s := surfaces[s].(role := LayerSurface(wants))];
    }

    /** A press, an activation or a taskbar click asks for the keyboard. */
    method FocusOn(s: Option<nat>)
      requires Valid() && In(s, surfaces.Keys)
      modifies this`focus
      ensures Valid() && focus == old(Now()).Target(s)
    {
      FocusedValid(Now(), s);
      SetFocus(s);
    }

    /** Pointer, pen, touch, cursor, drag or move come to point at live surfaces. */
    method Point(r: Refs)
      requires Valid() && RefsIn(r, surfaces.Keys)
      modifies this`refs
      ensures Valid() && refs == r
    {
      refs := r;
    }

    // ---- the session lock --------------------------------------------------------------------------------------

    /** `slock_mgr_lock`, granted. */
    method Lock()
      requires Valid()
      modifies this`locked, this`focus, this`refs
      ensures Valid() && Now() == AfterSession(old(Now()), LockSession)
      ensures Now() == old(Now()).(locked := true).Focused(None).(refs := Idle(old(refs)))
      ensures locked && ((focus == lock || focus == None) <==> (|stack| == 0 || lock.Some?))
      ensures refs.pointer == None && refs.pen == None && refs.drag == NoDrag && |refs.touches| == |old(refs).touches|
      ensures (forall t :: t in refs.touches ==> t == None)
      ensures refs.cursor == old(refs).cursor && refs.interactive == old(refs).interactive
    {
      LockedValid(Now());
      locked := true;
      SetFocus(None);
      refs := Idle(refs);
    }

    /** `slock_get_lock_surface` */
    method SetLockSurface(s: nat) returns (ok: bool)
      requires Valid() && s in surfaces
      modifies this`surfaces, this`lock, this`focus
      ensures Valid()
      ensures ok == (locked && old(surfaces)[s].role == NoRole && old(lock).None?)
      ensures Now() ==
              if ok then old(Now()).(surfaces := old(surfaces)[s := old(surfaces)[s].(role := LockSurface)],
                                     lock := Some(s)).Focused(Some(s))
              else old(Now())
      ensures ok ==> (focus == lock <==> |stack| == 0)
      ensures Now() == AfterSession(old(Now()), LockRole(s))
    {
      if !locked || surfaces[s].role != NoRole || lock.Some? {
        return false;
      }
      CutKeeps(surfaces, s, surfaces[s].(role := LockSurface));
      ChangedValid(Now(), s, surfaces[s].(role := LockSurface));
      surfaces := surfaces[s := surfaces[s].(role := LockSurface)];
      lock := Some(s);
      FocusedValid(Now(), Some(s));
      SetFocus(Some(s));
      return true;
    }

    /** `slock_unlock_and_destroy`: the keyboard returns to the chain if there is one. */
    method Unlock()
      requires Valid()
      modifies this`locked, this`focus, this`refs
      ensures Valid() && !locked
      ensures focus == if |stack| > 0 then stack[|stack| - 1] else Topmost(surfaces, mapped)
      ensures |stack| == 0 ==> HighestForKeys(surfaces, mapped, focus)
      ensures refs == old(refs).(pointer := None)
      ensures old(locked) ==> Now() == AfterSession(old(Now()), UnlockSession)
    {
      UnlockedValid(Now());
      locked := false;
      var top := FindTopmost();
      SetFocus(top);
      refs := refs.(pointer := None);
    }

    // ---- teardown ------------------------------------------------------------------------------------------------

    /** `surface_resource_destroy` */
    method Destroy(s: nat)
      requires Valid() && s in surfaces
      modifies this
      ensures Valid() && !Now().RefersTo(s)
      ensures surfaces == Orphaned(old(surfaces), s) - {s}
      ensures surfaces.Keys == old(surfaces).Keys - {s}
      ensures forall c :: c in surfaces ==>
                          surfaces[c] == old(surfaces)[c].(parent := if old(surfaces)[c].parent == Some(s) then None
                                                                     else old(surfaces)[c].parent)
      ensures Now() == old(Now()).Destroyed(s)
    {
      DestroyedClean(Now(), s);
      DestroyedValid(Now(), s);
      UnmappedSound(Now(), s);
      Unmap(s);
      ghost var u := Now();
      if refs.cursor == Some(s) {
        refs := refs.(cursor := None);
      }
      surfaces := Orphaned(surfaces, s);
      OrphanedSound(u, s, Now());
      GrabGone(s);
      Detach(s);
      surfaces := surfaces - {s};
    }

    method Detach(s: nat)
      modifies this`prev, this`refs, this`focus
      ensures Now() == old(Now()).Detached(s)
    {
      if prev == Some(s) {
        prev := None;
      }
      refs := LetGo(refs, s);
      if focus == Some(s) {
        var top := FindTopmost();
        SetFocus(top);
      }
    }

    // ---- runs --------------------------------------------------------------------------------------------------------

    /** One request or input event; what the protocol library or the source turns
        away changes nothing. */
    method Step(e: Event)
      requires Valid()
      modifies this
      ensures Valid() && Now() == After(old(Now()), e) && Tracked(old(Now()), Now(), Gone(e))
    {
      match e
      case NewSurface(s) =>
        if s !in surfaces {
          Create(s);
        }
      case RoleGiven(s, role, parent) =>
        if s in surfaces && In(parent, surfaces.Keys) {
          var _ := GiveRole(s, role, parent);
        }
      case Reparent(s, parent) =>
        if s in surfaces && surfaces[s].role == Toplevel && In(parent, surfaces.Keys) {
          var _ := SetParent(s, parent);
        }
      case RoleGone(s) =>
        if s in surfaces {
          DropAnyRole(s);
        }
      case _ => StepMapped(e);
    }

    method DropAnyRole(s: nat)
      requires Valid() && s in surfaces
      modifies this
      ensures Valid() && Tracked(old(Now()), Now(), None)
      ensures Now() == if old(surfaces)[s].role == LockSurface then LockRoleGone(old(Now()), s) else RoleLost(old(Now()), s)
    {
      if surfaces[s].role == LockSurface {
        DropLockSurface(s);
      } else {
        LoseRole(s);
      }
    }

    method LoseRole(s: nat)
      requires Valid() && s in surfaces && surfaces[s].role != LockSurface
      modifies this
      ensures Valid() && Now() == RoleLost(old(Now()), s) && Tracked(old(Now()), Now(), None)
    {
      UngrabbedTracked(Now(), s);
      ghost var u := Now().Ungrabbed(s);
      DropRole(s);
      ChangedTracked(old(Now()), u, Now(), None);
    }

    method StepMapped(e: Event)
      requires Valid()
      modifies this
      ensures Valid() && Now() == AfterMapped(old(Now()), e) && Tracked(old(Now()), Now(), Gone(e))
    {
      match e
      case FirstBuffer(s, at) =>
        if s in surfaces && at <= |mapped| {
          MapAt(s, at);
        }
      case NullBuffer(s) =>
        if s in surfaces {
          UnmappedTracked(Now(), s);
          Unmap(s);
        }
      case Reorder(order) =>
        if multiset(order) == multiset(mapped) {
          Restack(order);
        }
      case _ => StepFlags(e);
    }

    method StepFlags(e: Event)
      requires Valid()
      modifies this
      ensures Valid() && Now() == AfterFlags(old(Now()), e) && Tracked(old(Now()), Now(), Gone(e))
    {
      match e
      case Minimize(s, minimized) =>
        if s in surfaces {
          SetMinimized(s, minimized);
        }
      case WantKeys(s, wants) =>
        if s in surfaces && surfaces[s].role.LayerSurface? {
          SetWantsKeys(s, wants);
        }
      case _ => StepInput(e);
    }

    method StepInput(e: Event)
      requires Valid()
      modifies this
      ensures Valid() && Now() == AfterInput(old(Now()), e) && Tracked(old(Now()), Now(), Gone(e))
    {
      match e
      case GrabRequest(s) =>
        if s in surfaces {
          var _ := Grab(s);
        }
      case PressOn(hit) => PressAt(hit);
      case Activate(s) =>
        if In(s, surfaces.Keys) {
          FocusOn(s);
        }
      case Input(r) =>
        if RefsIn(r, surfaces.Keys) {
          Point(r);
        }
      case _ => StepSession(e);
    }

    method PressAt(hit: Option<nat>)
      requires Valid()
      modifies this
      ensures Valid() && Now() == AfterInput(old(Now()), PressOn(hit)) && Tracked(old(Now()), Now(), None)
    {
      DismissedAllTracked(Now());
      Press(hit);
    }

    method StepSession(e: Event)
      requires Valid()
      modifies this
      ensures Valid() && Now() == AfterSession(old(Now()), e) && Tracked(old(Now()), Now(), Gone(e))
    {
      if e.SurfaceGone? {
        if e.s in surfaces {
          TearDown(e.s);
        }
      } else {
        StepLock(e);
      }
    }

    method TearDown(s: nat)
      requires Valid() && s in surfaces
      modifies this
      ensures Valid() && Now() == old(Now()).Destroyed(s) && Tracked(old(Now()), Now(), Some(s))
    {
      DestroyedTracked(Now(), s);
      Destroy(s);
    }

    method StepLock(e: Event)
      requires Valid() && !e.SurfaceGone?
      modifies this`surfaces, this`locked, this`lock, this`focus, this`refs
      ensures Valid() && Now() == AfterSession(old(Now()), e) && Tracked(old(Now()), Now(), Gone(e))
    {
      SameChain(Now(), Gone(e));
      match e
      case LockSession => Lock();
      case LockRole(s) =>
        if s in surfaces {
          var _ := SetLockSurface(s);
        }
      case UnlockSession =>
        if locked {
          Unlock();
        }
      case _ =>
    }

    /** Every run goes from state to state as the events say, keeps the chain distinct,
        nested and in hold of the keyboard, and leaves nothing pointing at a surface
        that is gone; its states are a trace, so that `ChainEnds` says where the
        keyboard goes whenever a chain ends. */
    method Run(events: seq<Event>) returns (ghost views: seq<View>)
      requires Valid()
      modifies this
      ensures Valid()
      ensures Follows(views, events) && views[0] == old(Now()) && views[|events|] == Now()
      ensures Trace(views, AllGone(events))
      ensures forall v :: v in views ==> v.Valid()
      ensures forall s :: s !in surfaces ==> !Now().RefersTo(s)
      ensures forall i, j :: 0 <= i < j < |stack| ==> stack[i] != stack[j]
      ensures forall k :: 0 < k < |stack| ==>
                stack[k].Some? && stack[k].value in surfaces && surfaces[stack[k].value].parent == stack[k - 1]
      ensures !locked && |stack| > 0 ==> focus == stack[|stack| - 1]
    {
      views := [Now()];
      assert events[..0] == [];
      for i := 0 to |events|
        invariant Valid() && |views| == i + 1 && views[0] == old(Now()) && views[i] == Now()
        invariant AllValid(views) && Follows(views, events[..i]) && Trace(views, AllGone(events[..i]))
      {
        views := StepOn(events, i, views);
      }
      assert events[..|events|] == events;
      SoundRefersToLive(Now());
    }

    /** One event more. */
    method StepOn(events: seq<Event>, i: nat, ghost views: seq<View>) returns (ghost more: seq<View>)
      requires Valid() && i < |events| && |views| == i + 1 && views[i] == Now()
      requires AllValid(views) && Follows(views, events[..i]) && Trace(views, AllGone(events[..i]))
      modifies this
      ensures Valid() && |more| == i + 2 && more[0] == views[0] && more[i + 1] == Now()
      ensures AllValid(more) && Follows(more, events[..i + 1]) && Trace(more, AllGone(events[..i + 1]))
    {
      Step(events[i]);
      more := views + [Now()];
      OneMore(views, events, i, Now());
    }
  }

  ghost predicate AllValid(views: seq<View>) {
    forall v :: v in views ==> v.Valid()
  }

  /** Every state is what the event makes of the one before. */
  ghost predicate Follows(views: seq<View>, events: seq<Event>) {
    |views| == |events| + 1 && forall k :: 0 <= k < |events| ==> views[k + 1] == After(views[k], events[k])
  }

  lemma OneMore(views: seq<View>, events: seq<Event>, i: nat, w: View)
    requires i < |events| && |views| == i + 1 && Follows(views, events[..i]) && Trace(views, AllGone(events[..i]))
    requires w == After(views[i], events[i]) && Tracked(views[i], w, Gone(events[i]))
    ensures Follows(views + [w], events[..i + 1]) && Trace(views + [w], AllGone(events[..i + 1]))
  {
    var more, es := views + [w], events[..i + 1];
    forall k | 0 <= k < i + 1
      ensures more[k + 1] == After(more[k], es[k]) && Tracked(more[k], more[k + 1], AllGone(es)[k])
    {
      if k < i {
        assert more[k + 1] == views[k + 1] && more[k] == views[k] && es[k] == events[..i][k];
        assert Tracked(views[k], views[k + 1], AllGone(events[..i])[k]);
      }
    }
  }

  /** What leaves the chain and its saved focus alone is a step of no account to it. */
  lemma SameChain(v: View, gone: Option<nat>)
    requires gone.None?
    ensures forall w: View :: w.stack == v.stack && w.prev == v.prev ==> Tracked(v, w, gone)
  {
  }

  lemma SoundRefersToLive(v: View)
    requires v.Valid()
    ensures forall s :: s !in v.surfaces ==> !v.RefersTo(s)
    ensures forall i, j :: 0 <= i < j < |v.stack| ==> v.stack[i] != v.stack[j]
  {
  }

  lemma GrabbedValid(v: View, s: nat)
    requires v.Valid() && |v.stack| < MAX_POPUP_GRAB && s in v.surfaces && v.surfaces[s].role == Popup
    requires |v.stack| > 0 ==> v.surfaces[s].parent == v.stack[|v.stack| - 1]
    ensures Some(s) !in v.stack
    ensures v.(prev := if |v.stack| == 0 then v.focus else v.prev, stack := v.stack + [Some(s)]).Focused(Some(s)).Valid()
  {
    if |v.stack| > 0 {
      NewPopupIsNew(v.surfaces, v.stack, s);
    }
    var w := v.(prev := if |v.stack| == 0 then v.focus else v.prev, stack := v.stack + [Some(s)]);
    assert w.StackSound();
    assert Nested(w.surfaces, w.stack);
  }

  /** Every pointer, pen, touch and drag is over. */
  function Idle(r: Refs): Refs {
    r.(pointer := None, pen := None, drag := NoDrag, touches := seq(|r.touches|, _ => None))
  }

  lemma LockedValid(v: View)
    requires v.Valid()
    ensures v.(locked := true).Focused(None).(refs := Idle(v.refs)).Valid()
  {
    assert RefsIn(Idle(v.refs), v.surfaces.Keys);
  }

  lemma UnlockedValid(v: View)
    requires v.Valid()
    ensures v.(locked := false).Focused(Topmost(v.surfaces, v.mapped)).(refs := v.refs.(pointer := None)).Valid()
  {
    assert RefsIn(v.refs.(pointer := None), v.surfaces.Keys);
  }

  lemma FocusedValid(v: View, s: Option<nat>)
    requires v.Valid() && In(s, v.surfaces.Keys)
    ensures v.Focused(s).Valid()
  {
  }

  lemma CreatedValid(v: View, s: nat)
    requires v.Valid() && s !in v.surfaces
    ensures v.(surfaces := v.surfaces[s := Info(NoRole, None, false)]).Valid()
  {
    var w := v.(surfaces := v.surfaces[s := Info(NoRole, None, false)]);
    CutKeeps(v.surfaces, s, Info(NoRole, None, false));
    assert w.Sound();
    assert Nested(w.surfaces, w.stack);
  }

  /** A surface outside the chain may change its role and its links. */
  lemma ChangedValid(v: View, s: nat, info: Info)
    requires v.Valid() && s in v.surfaces && Some(s) !in v.stack
    requires In(info.parent, v.surfaces.Keys) && NoShortCycle(v.surfaces[s := info])
    ensures v.(surfaces := v.surfaces[s := info]).Valid()
  {
    var w := v.(surfaces := v.surfaces[s := info]);
    assert w.surfaces.Keys == v.surfaces.Keys;
    forall k | 0 <= k < |v.stack|
      ensures v.stack[k].Some? && v.stack[k].value != s
    {
      assert v.stack[k] in v.stack;
    }
    assert w.Sound();
    assert Nested(w.surfaces, w.stack);
  }

  lemma RestackedValid(v: View, order: seq<nat>)
    requires v.Valid() && NoDuplicates(order) && forall m :: m in order ==> m in v.surfaces
    ensures v.(mapped := order).Valid()
  {
  }

  lemma PermutedNoDuplicates(xs: seq<nat>, ys: seq<nat>)
    requires NoDuplicates(xs) && multiset(xs) == multiset(ys)
    ensures NoDuplicates(ys) && forall m :: m in ys ==> m in xs
  {
    assert forall m :: m in ys ==> m in multiset(ys);
    if !NoDuplicates(ys) {
      var i, j :| 0 <= i < j < |ys| && ys[i] == ys[j];
      var x := ys[i];
      assert ys == ys[..i] + [x] + ys[i + 1..j] + [x] + ys[j + 1..];
      assert multiset(ys)[x] >= 2;
      AtMostOnce(xs, x);
    }
  }

  lemma {:induction false} AtMostOnce(xs: seq<nat>, x: nat)
    requires NoDuplicates(xs)
    ensures multiset(xs)[x] <= 1
  {
    if xs != [] {
      var front := xs[..|xs| - 1];
      assert xs == front + [xs[|xs| - 1]];
      AtMostOnce(front, x);
      if xs[|xs| - 1] == x {
        assert x !in front;
        assert x !in multiset(front);
      }
    }
  }
}
