/** Parent links between surfaces: the walks that follow them give up after 64
    links, and that is as short a cycle as any request can close. */
module Forest {
  import opened Options
  import opened SeatState

  /** `anc` is `s` or one of its ancestors. */
  ghost predicate Above(surfaces: map<nat, Info>, anc: nat, s: Option<nat>) {
    exists n: nat :: Up(surfaces, s, n) == Some(anc)
  }

  /** It is, and a walk that starts at `s` gets there. */
  ghost predicate Reaches(surfaces: map<nat, Info>, anc: nat, s: Option<nat>) {
    exists n: nat :: n < MAX_PARENT_DEPTH && Up(surfaces, s, n) == Some(anc)
  }

  lemma {:induction false} UpMore(surfaces: map<nat, Info>, s: Option<nat>, n: nat, m: nat)
    ensures Up(surfaces, s, n + m) == Up(surfaces, Up(surfaces, s, n), m)
  {
    if m > 0 {
      UpMore(surfaces, s, n, m - 1);
    }
  }

  /** `surface_is_ancestor_of` */
  method IsAncestor(surfaces: map<nat, Info>, anc: nat, s: Option<nat>) returns (r: bool)
    ensures r <==> Reaches(surfaces, anc, s)
  {
    var t, d := s, 0;
    while t.Some? && d < MAX_PARENT_DEPTH
      invariant 0 <= d <= MAX_PARENT_DEPTH && t == Up(surfaces, s, d)
      invariant forall k :: 0 <= k < d ==> Up(surfaces, s, k) != Some(anc)
    {
      if t == Some(anc) {
        return true;
      }
      t, d := if t.value in surfaces then surfaces[t.value].parent else None, d + 1;
    }
    if t.None? {
      NoneFrom(surfaces, s, d);
    }
    return false;
  }

  lemma NoneFrom(surfaces: map<nat, Info>, s: Option<nat>, d: nat)
    requires Up(surfaces, s, d) == None
    ensures forall k :: k >= d ==> Up(surfaces, s, k) == None
  {
    forall k | k >= d
      ensures Up(surfaces, s, k) == None
    {
      UpMore(surfaces, s, d, k - d);
      UpNone(surfaces, k - d);
    }
  }

  /** A walk that does not pass `s` does not notice a change of its link. */
  lemma {:induction false} SameWalk(a: map<nat, Info>, b: map<nat, Info>, s: nat, x: Option<nat>, n: nat)
    requires s in b && b == a[s := b[s]]
    requires forall k :: 0 <= k < n ==> Up(b, x, k) != Some(s)
    ensures Up(b, x, n) == Up(a, x, n)
  {
    if n > 0 {
      SameWalk(a, b, s, x, n - 1);
    }
  }

  /** The first time a walk passes `s`. */
  lemma FirstPass(surfaces: map<nat, Info>, s: nat, x: Option<nat>, n: nat) returns (m: nat)
    requires Up(surfaces, x, n) == Some(s)
    ensures m <= n && Up(surfaces, x, m) == Some(s) && forall k :: 0 <= k < m ==> Up(surfaces, x, k) != Some(s)
  {
    m := 0;
    while Up(surfaces, x, m) != Some(s)
      invariant m <= n && forall k :: 0 <= k < m ==> Up(surfaces, x, k) != Some(s)
      decreases n - m
    {
      m := m + 1;
    }
  }

  /** A link that the check admits closes no cycle of 64 links or fewer. */
  lemma LinkKeeps(surfaces: map<nat, Info>, s: nat, info: Info)
    requires NoShortCycle(surfaces) && s in surfaces && !Reaches(surfaces, s, info.parent)
    ensures NoShortCycle(surfaces[s := info])
  {
    var linked := surfaces[s := info];
    forall x, n: nat | 0 < n <= MAX_PARENT_DEPTH && x in linked
      ensures Up(linked, Some(x), n) != Some(x)
    {
      if Up(linked, Some(x), n) == Some(x) {
        CycleTurns(surfaces, s, info, x, n);
        UpFromParent(linked, Some(s), n - 1);
        var m := FirstPass(linked, s, info.parent, n - 1);
        SameWalk(surfaces, linked, s, info.parent, m);
      }
    }
  }

  /** A new cycle passes the changed link, so it is one of `s` too. */
  lemma CycleTurns(surfaces: map<nat, Info>, s: nat, info: Info, x: nat, n: nat)
    requires NoShortCycle(surfaces) && s in surfaces && 0 < n <= MAX_PARENT_DEPTH && x in surfaces
    requires Up(surfaces[s := info], Some(x), n) == Some(x)
    ensures Up(surfaces[s := info], Some(s), n) == Some(s)
  {
    var linked := surfaces[s := info];
    if forall k :: 0 <= k < n ==> Up(linked, Some(x), k) != Some(s) {
      SameWalk(surfaces, linked, s, Some(x), n);
    } else {
      var k :| 0 <= k < n && Up(linked, Some(x), k) == Some(s);
      UpMore(linked, Some(x), k, n);
      UpMore(linked, Some(x), n, k);
    }
  }

  /** Cutting a link closes no cycle. */
  lemma CutKeeps(surfaces: map<nat, Info>, s: nat, info: Info)
    requires NoShortCycle(surfaces)
    requires info.parent.None? || (s in surfaces && info.parent == surfaces[s].parent)
    ensures NoShortCycle(surfaces[s := info])
  {
    FewerLinksNoCycle(surfaces, surfaces[s := info]);
  }

  // ---- a longer cycle ------------------------------------------------------------------------------

  /** Surfaces 0 to `n`, each a child of the one before. */
  function Ladder(n: nat): map<nat, Info> {
    if n == 0 then map[0 := Info(Toplevel, None, false)]
    else Ladder(n - 1)[n := Info(Toplevel, Some(n - 1), false)]
  }

  lemma {:induction false} LadderAt(n: nat, i: nat)
    ensures i in Ladder(n) <==> i <= n
    ensures i <= n ==> Ladder(n)[i] == Info(Toplevel, if i == 0 then None else Some(i - 1), false)
  {
    if n > 0 {
      LadderAt(n - 1, i);
    }
  }

  lemma {:induction false} LadderUp(n: nat, i: nat, k: nat)
    requires i <= n
    ensures Up(Ladder(n), Some(i), k) == if k <= i then Some(i - k) else None
  {
    if k > 0 {
      LadderUp(n, i, k - 1);
      if k - 1 <= i {
        LadderAt(n, i - (k - 1));
      }
    }
  }

  /** The ladder with its bottom put below its top. */
  function Ring(n: nat): map<nat, Info> {
    Ladder(n)[0 := Info(Toplevel, Some(n), false)]
  }

  lemma {:induction false} RingUp(n: nat, k: nat)
    requires k <= n
    ensures Up(Ring(n), Some(n), k) == Some(n - k)
  {
    if k > 0 {
      RingUp(n, k - 1);
      LadderAt(n, n - (k - 1));
    }
  }

  lemma LadderNoCycle(n: nat)
    ensures NoShortCycle(Ladder(n))
  {
    forall s, k: nat | 0 < k <= MAX_PARENT_DEPTH && s in Ladder(n)
      ensures Up(Ladder(n), Some(s), k) != Some(s)
    {
      LadderAt(n, s);
      LadderUp(n, s, k);
    }
  }

  lemma LadderReached(n: nat)
    ensures Reaches(Ladder(n), 0, Some(n)) <==> n < MAX_PARENT_DEPTH
  {
    var a := Ladder(n);
    forall k: nat
      ensures Up(a, Some(n), k) == Some(0) <==> k == n
    {
      LadderUp(n, n, k);
    }
    assert Up(a, Some(n), n) == Some(0);
  }

  /** The check refuses that exactly if the top is less than 64 links up; a longer
      ladder becomes a cycle. */
  lemma LadderExactly(n: nat)
    ensures NoShortCycle(Ladder(n))
    ensures Reaches(Ladder(n), 0, Some(n)) <==> n < 64
    ensures Up(Ring(n), Some(0), n + 1) == Some(0)
  {
    LadderNoCycle(n);
    LadderReached(n);
    RingUp(n, n);
    var ring := Ring(n);
    assert ParentOf(ring, Some(0)) == Some(n);
    UpFromParent(ring, Some(0), n);
  }

  // ---- presses ---------------------------------------------------------------------------------------

  /** `popup_hit_is_within_grab`: the press hit a popup of the chain or something
      below one, as far as the walk gets, or there is no chain to be outside of. */
  method WithinGrab(surfaces: map<nat, Info>, stack: Stack, hit: Option<nat>) returns (r: bool)
    ensures r <==> stack == [] || exists p :: Some(p) in stack && Reaches(surfaces, p, hit)
  {
    if stack == [] {
      return true;
    }
    var t, d := hit, 0;
    while t.Some? && d < MAX_PARENT_DEPTH
      invariant 0 <= d <= MAX_PARENT_DEPTH && t == Up(surfaces, hit, d)
      invariant forall k :: 0 <= k < d ==> Up(surfaces, hit, k).Some? ==> Up(surfaces, hit, k) !in stack
    {
      if t in stack {
        assert Reaches(surfaces, t.value, hit);
        return true;
      }
      t, d := if t.value in surfaces then surfaces[t.value].parent else None, d + 1;
    }
    if t.None? {
      NoneFrom(surfaces, hit, d);
    }
    return false;
  }
}
