/** A run that ends with a focusable window mapped and nothing holding the keyboard. */
module LostKeyboard {
  import opened Options
  import opened SeatState
  import opened SeatTrace
  import opened Forest
  import opened Seat

  /** A surface outside the chain goes without touching it. */
  lemma DestroyedOutside(v: View, s: nat)
    requires v.Valid() && s in v.surfaces && Some(s) !in v.stack
    ensures v.Destroyed(s).stack == v.stack && v.Destroyed(s).mapped == Without(v.mapped, {s})
    ensures v.Destroyed(s).locked == v.locked && v.Destroyed(s).prev == Unless(v.prev, s)
  {
    UnmappedOutside(v, s);
    UnmappedSound(v, s);
    assert Position(v.stack, s).None?;
  }

  /** Nobody is reached from no surface, and only `p` itself from one without parent. */
  lemma NobodyReached(surfaces: map<nat, Info>, p: nat, s: Option<nat>)
    requires ParentOf(surfaces, s) == None && s != Some(p)
    ensures !Reaches(surfaces, p, s)
  {
    forall n: nat
      ensures Up(surfaces, s, n) != Some(p)
    {
      if n > 0 {
        UpFromParent(surfaces, s, n - 1);
        UpNone(surfaces, n - 1);
      }
    }
  }

  /** In any state with a chain: if the surface focused before it is destroyed and
      the chain is then dismissed by a press outside, nothing has the keyboard,
      although another focusable window stays mapped. */
  method LoseKeyboard(seat: Seat, s: nat, m: nat)
    requires seat.Valid() && !seat.locked && |seat.stack| > 0 && seat.prev == Some(s) && Some(s) !in seat.stack
    requires m != s && m in seat.mapped && Some(m) !in seat.stack && Focusable(seat.surfaces, m)
    modifies seat
    ensures seat.Valid() && !seat.locked && seat.stack == [] && seat.focus == None
    ensures m in seat.mapped && Focusable(seat.surfaces, m) && Topmost(seat.surfaces, seat.mapped).Some?
  {
    DestroyedOutside(seat.Now(), s);
    seat.Destroy(s);
    PressOutside(seat, m);
  }

  /** With nothing saved, a press outside the chain leaves the keyboard to nobody. */
  method PressOutside(seat: Seat, m: nat)
    requires seat.Valid() && !seat.locked && |seat.stack| > 0 && seat.prev == None
    requires m in seat.mapped && Some(m) !in seat.stack && Focusable(seat.surfaces, m)
    modifies seat
    ensures seat.Valid() && !seat.locked && seat.stack == [] && seat.focus == None
    ensures m in seat.mapped && Focusable(seat.surfaces, m) && Topmost(seat.surfaces, seat.mapped).Some?
  {
    DismissedAllEffect(seat.Now());
    forall p ensures !Reaches(seat.surfaces, p, None) {
      NobodyReached(seat.surfaces, p, None);
    }
    seat.Press(None);
  }

  /** Two windows, a popup of the first, the second focused when the popup grabs. */
  method GrabOverSecond() returns (seat: Seat)
    ensures fresh(seat) && seat.Valid() && !seat.locked && seat.stack == [Some(3)] && seat.prev == Some(2)
    ensures 1 in seat.mapped && Focusable(seat.surfaces, 1)
  {
    seat := new Seat();
    AddWindow(seat, 1);
    AddWindow(seat, 2);
    GrabFrom(seat, 3, 1);
  }

  /** A new popup of a window starts a chain. */
  method GrabFrom(seat: Seat, s: nat, parent: nat)
    requires seat.Valid() && seat.stack == [] && s !in seat.surfaces && s != parent
    requires parent in seat.surfaces && seat.surfaces[parent] == Info(Toplevel, None, false)
    modifies seat
    ensures seat.Valid() && seat.locked == old(seat.locked) && seat.mapped == old(seat.mapped)
    ensures seat.stack == [Some(s)] && seat.prev == old(seat.focus)
    ensures seat.surfaces == old(seat.surfaces)[s := Info(Popup, Some(parent), false)]
  {
    seat.Create(s);
    NobodyReached(seat.surfaces, s, Some(parent));
    var ok := seat.GiveRole(s, Popup, Some(parent));
    ok := seat.Grab(s);
  }

  /** A new toplevel comes up on top and takes the keyboard. */
  method AddWindow(seat: Seat, s: nat)
    requires seat.Valid() && !seat.locked && seat.stack == [] && s !in seat.surfaces && |seat.mapped| < 64
    modifies seat
    ensures seat.Valid() && !seat.locked && seat.stack == [] && seat.focus == Some(s)
    ensures seat.mapped == old(seat.mapped) + [s]
    ensures seat.surfaces == old(seat.surfaces)[s := Info(Toplevel, None, false)]
  {
    seat.Create(s);
    NobodyReached(seat.surfaces, s, None);
    var ok := seat.GiveRole(s, Toplevel, None);
    seat.MapAt(s, |seat.mapped|);
  }

  method NobodyFocused() returns (seat: Seat)
    ensures seat.Valid() && !seat.locked && seat.stack == [] && seat.focus == None
    ensures exists m :: m in seat.mapped && Focusable(seat.surfaces, m)
  {
    seat := GrabOverSecond();
    assert 1 in seat.mapped;
    LoseKeyboard(seat, 2, 1);
  }
}
