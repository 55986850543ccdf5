/** The z-ordered list of mapped surfaces: bottom first, grouped by z-band.
    Mapping inserts at the top of the band, raising and lowering move one surface
    to an end of its band, and raising a window pulls its transient dialogs along. */
module ZOrder {
  import opened Options
  import opened Geometry
  import opened Scene

  const MAX_SURFACES := 64

  /** background < bottom < windows < top < overlay */
  function Band(s: Surface): int {
    match s.role
    case Layer(level) =>
      if level == 0 then 0 else if level == 1 then 1 else if level == 2 then 3 else if level == 3 then 4 else 2
    case _ => 2
  }

  ghost predicate DistinctIds(ws: seq<Surface>) {
    forall i, j :: 0 <= i < j < |ws| ==> ws[i].id != ws[j].id
  }

  ghost predicate BandSorted(ws: seq<Surface>) {
    forall i, j :: 0 <= i < j < |ws| ==> Band(ws[i]) <= Band(ws[j])
  }

  ghost predicate Stacked(ws: seq<Surface>) {
    DistinctIds(ws) && BandSorted(ws)
  }

  ghost predicate IsMapped(ws: seq<Surface>, id: nat) {
    exists i :: 0 <= i < |ws| && ws[i].id == id
  }

  /** The first index whose band is above the given one. */
  function EndOfBand(ws: seq<Surface>, band: int): (at: nat)
    ensures at <= |ws|
    ensures forall i :: 0 <= i < at ==> Band(ws[i]) <= band
    ensures at < |ws| ==> Band(ws[at]) > band
  {
    if ws == [] || Band(ws[0]) > band then 0 else 1 + EndOfBand(ws[1..], band)
  }

  /** The first index whose band is not below the given one. */
  function StartOfBand(ws: seq<Surface>, band: int): (at: nat)
    ensures at <= |ws|
    ensures forall i :: 0 <= i < at ==> Band(ws[i]) < band
    ensures at < |ws| ==> Band(ws[at]) >= band
  {
    if ws == [] || Band(ws[0]) >= band then 0 else 1 + StartOfBand(ws[1..], band)
  }

  function InsertAt(ws: seq<Surface>, at: nat, s: Surface): seq<Surface>
    requires at <= |ws|
  {
    ws[..at] + [s] + ws[at..]
  }

  function RemoveAt(ws: seq<Surface>, i: nat): seq<Surface>
    requires i < |ws|
  {
    ws[..i] + ws[i + 1..]
  }

  /** Raised: taken out and put back on top of its band. */
  function Raised(ws: seq<Surface>, i: nat): seq<Surface>
    requires i < |ws|
  {
    var rest := RemoveAt(ws, i);
    InsertAt(rest, EndOfBand(rest, Band(ws[i])), ws[i])
  }

  /** Lowered: taken out and put back at the bottom of its band. */
  function Lowered(ws: seq<Surface>, i: nat): seq<Surface>
    requires i < |ws|
  {
    var rest := RemoveAt(ws, i);
    InsertAt(rest, StartOfBand(rest, Band(ws[i])), ws[i])
  }

  function IndexOf(ws: seq<Surface>, id: nat): (r: Option<nat>)
    ensures r.Some? ==> r.value < |ws| && ws[r.value].id == id && forall k :: 0 <= k < r.value ==> ws[k].id != id
    ensures r.None? ==> forall k :: 0 <= k < |ws| ==> ws[k].id != id
  {
    if ws == [] then None
    else if ws[0].id == id then Some(0)
    else
      match IndexOf(ws[1..], id)
      case None => None
      case Some(k) => Some(k + 1)
  }

  function RaiseOne(ws: seq<Surface>, id: nat): seq<Surface> {
    match IndexOf(ws, id)
    case None => ws
    case Some(i) => Raised(ws, i)
  }

  /** The mapped transient toplevels of a surface, in stacking order. */
  function Kids(ws: seq<Surface>, id: nat): seq<nat> {
    if ws == [] then []
    else
      var front, s := Kids(ws[..|ws| - 1], id), ws[|ws| - 1];
      if s.id != id && s.role == Toplevel && s.parent == Some(id) then front + [s.id] else front
  }

  /** Raise a surface, then every transient below it, parents first. */
  function RaiseTree(ws: seq<Surface>, id: nat, depth: nat): seq<Surface>
    decreases depth, 1, 0
  {
    var ws1 := RaiseOne(ws, id);
    if depth == 0 then ws1 else RaiseAll(ws1, Kids(ws1, id), depth - 1)
  }

  function RaiseAll(ws: seq<Surface>, kids: seq<nat>, depth: nat): seq<Surface>
    decreases depth, 2, |kids|
  {
    if kids == [] then ws else RaiseAll(RaiseTree(ws, kids[0], depth), kids[1..], depth)
  }

  lemma RaiseAllStep(ws: seq<Surface>, kids: seq<nat>, i: nat, depth: nat)
    requires i < |kids|
    ensures RaiseAll(ws, kids[i..], depth) == RaiseAll(RaiseTree(ws, kids[i], depth), kids[i + 1..], depth)
  {
    assert kids[i..][0] == kids[i] && kids[i..][1..] == kids[i + 1..];
  }

  function RaisedBelow(ws: seq<Surface>, id: nat, depth: nat): seq<Surface> {
    if depth == 0 then ws else RaiseAll(ws, Kids(ws, id), depth - 1)
  }

  lemma RaisedBelowIs(ws: seq<Surface>, id: nat, depth: nat)
    ensures depth == 0 ==> RaisedBelow(ws, id, depth) == ws
    ensures depth > 0 ==> RaisedBelow(ws, id, depth) == RaiseAll(ws, Kids(ws, id), depth - 1)
  {
  }

  lemma RaiseTreeIs(ws: seq<Surface>, id: nat, depth: nat)
    ensures RaiseTree(ws, id, depth) == RaisedBelow(RaiseOne(ws, id), id, depth)
  {
  }

  lemma RaiseAllDone(ws: seq<Surface>, kids: seq<nat>, depth: nat)
    ensures RaiseAll(ws, kids[|kids|..], depth) == ws
  {
  }

  // ---- shape of the primitive moves --------------------------------------------

  lemma RemoveAtStacked(ws: seq<Surface>, i: nat)
    requires Stacked(ws) && i < |ws|
    ensures Stacked(RemoveAt(ws, i))
    ensures forall k :: 0 <= k < |RemoveAt(ws, i)| ==> RemoveAt(ws, i)[k] == (if k < i then ws[k] else ws[k + 1])
    ensures !IsMapped(RemoveAt(ws, i), ws[i].id)
  {
  }

  lemma InsertAtStacked(ws: seq<Surface>, at: nat, s: Surface)
    requires Stacked(ws) && at <= |ws| && !IsMapped(ws, s.id)
    requires at > 0 ==> Band(ws[at - 1]) <= Band(s)
    requires at < |ws| ==> Band(s) <= Band(ws[at])
    ensures Stacked(InsertAt(ws, at, s))
  {
    var r := InsertAt(ws, at, s);
    forall i, j | 0 <= i < j < |r| ensures r[i].id != r[j].id && Band(r[i]) <= Band(r[j]) {
      assert i < at ==> r[i] == ws[i];
      assert i > at ==> r[i] == ws[i - 1];
      assert j < at ==> r[j] == ws[j];
      assert j > at ==> r[j] == ws[j - 1];
      assert i < at ==> Band(ws[i]) <= Band(ws[at - 1]);
      assert j > at ==> Band(ws[at]) <= Band(ws[j - 1]);
    }
  }

  /** Mapping keeps the list duplicate-free and grouped by band. */
  lemma MapStacked(ws: seq<Surface>, s: Surface)
    requires Stacked(ws) && !IsMapped(ws, s.id)
    ensures Stacked(InsertAt(ws, EndOfBand(ws, Band(s)), s))
  {
    InsertAtStacked(ws, EndOfBand(ws, Band(s)), s);
  }

  lemma RaisedStacked(ws: seq<Surface>, i: nat)
    requires Stacked(ws) && i < |ws|
    ensures Stacked(Raised(ws, i))
  {
    RemoveAtStacked(ws, i);
    MapStacked(RemoveAt(ws, i), ws[i]);
  }

  lemma LoweredStacked(ws: seq<Surface>, i: nat)
    requires Stacked(ws) && i < |ws|
    ensures Stacked(Lowered(ws, i))
  {
    RemoveAtStacked(ws, i);
    InsertAtStacked(RemoveAt(ws, i), StartOfBand(RemoveAt(ws, i), Band(ws[i])), ws[i]);
  }

  lemma ReplacedStacked(ws: seq<Surface>, i: nat, s: Surface)
    requires Stacked(ws) && i < |ws| && s.id == ws[i].id && s.role == ws[i].role
    ensures Stacked(ws[i := s])
  {
  }

  // ---- relative order ------------------------------------------------------------

  ghost predicate Before(ws: seq<Surface>, a: nat, b: nat) {
    exists i, j :: 0 <= i < j < |ws| && ws[i].id == a && ws[j].id == b
  }

  ghost predicate SameSurfaces(ws: seq<Surface>, ws': seq<Surface>) {
    |ws| == |ws'| && forall s :: s in ws <==> s in ws'
  }

  ghost predicate InBand(ws: seq<Surface>, id: nat, band: int) {
    exists i :: 0 <= i < |ws| && ws[i].id == id && Band(ws[i]) == band
  }

  lemma RemoveAtAt(ws: seq<Surface>, i: nat, k: nat)
    requires i < |ws| && k < |ws| && k != i
    ensures var at := if k < i then k else k - 1;
            at < |RemoveAt(ws, i)| && RemoveAt(ws, i)[at] == ws[k]
  {
  }

  lemma RemoveAtBefore(ws: seq<Surface>, i: nat, a: nat, b: nat)
    requires i < |ws| && a != ws[i].id && b != ws[i].id
    ensures Before(RemoveAt(ws, i), a, b) <==> Before(ws, a, b)
  {
    var rest := RemoveAt(ws, i);
    if Before(ws, a, b) {
      var m, n :| 0 <= m < n < |ws| && ws[m].id == a && ws[n].id == b;
      RemoveAtAt(ws, i, m);
      RemoveAtAt(ws, i, n);
    }
    if Before(rest, a, b) {
      var m, n :| 0 <= m < n < |rest| && rest[m].id == a && rest[n].id == b;
      RemoveAtAt(ws, i, if m < i then m else m + 1);
      RemoveAtAt(ws, i, if n < i then n else n + 1);
    }
  }

  lemma InsertAtBefore(ws: seq<Surface>, at: nat, s: Surface, a: nat, b: nat)
    requires at <= |ws| && a != s.id && b != s.id
    ensures Before(InsertAt(ws, at, s), a, b) <==> Before(ws, a, b)
  {
    var r := InsertAt(ws, at, s);
    if Before(ws, a, b) {
      var m, n :| 0 <= m < n < |ws| && ws[m].id == a && ws[n].id == b;
      assert r[if m < at then m else m + 1] == ws[m];
      assert r[if n < at then n else n + 1] == ws[n];
    }
    if Before(r, a, b) {
      var m, n :| 0 <= m < n < |r| && r[m].id == a && r[n].id == b;
      assert m != at && n != at;
      assert ws[if m < at then m else m - 1] == r[m];
      assert ws[if n < at then n else n - 1] == r[n];
    }
  }

  /** Raising one surface: nobody else changes order, it lands above its band. */
  lemma RaisedOrder(ws: seq<Surface>, i: nat)
    requires Stacked(ws) && i < |ws|
    ensures Stacked(Raised(ws, i)) && SameSurfaces(ws, Raised(ws, i))
    ensures forall a, b :: a != ws[i].id && b != ws[i].id ==> (Before(Raised(ws, i), a, b) <==> Before(ws, a, b))
    ensures forall a :: a != ws[i].id && InBand(ws, a, Band(ws[i])) ==> Before(Raised(ws, i), a, ws[i].id)
  {
    RaisedStacked(ws, i);
    RaisedSame(ws, i);
    forall a, b | a != ws[i].id && b != ws[i].id
      ensures Before(Raised(ws, i), a, b) <==> Before(ws, a, b)
    {
      RemoveAtBefore(ws, i, a, b);
      InsertAtBefore(RemoveAt(ws, i), EndOfBand(RemoveAt(ws, i), Band(ws[i])), ws[i], a, b);
    }
    forall a | a != ws[i].id && InBand(ws, a, Band(ws[i]))
      ensures Before(Raised(ws, i), a, ws[i].id)
    {
      RaisedTops(ws, i, a);
    }
  }

  lemma RaisedTops(ws: seq<Surface>, i: nat, a: nat)
    requires Stacked(ws) && i < |ws| && a != ws[i].id && InBand(ws, a, Band(ws[i]))
    ensures Before(Raised(ws, i), a, ws[i].id)
  {
    var s, rest, r := ws[i], RemoveAt(ws, i), Raised(ws, i);
    var at := EndOfBand(rest, Band(s));
    RemoveAtStacked(ws, i);
    var k :| 0 <= k < |ws| && ws[k].id == a && Band(ws[k]) == Band(s);
    var k' := if k < i then k else k - 1;
    assert rest[k'] == ws[k];
    assert r[k'].id == a && r[at].id == s.id;
  }

  lemma RaisedSame(ws: seq<Surface>, i: nat)
    requires i < |ws|
    ensures SameSurfaces(ws, Raised(ws, i))
  {
    var rest := RemoveAt(ws, i);
    var at := EndOfBand(rest, Band(ws[i]));
    forall s
      ensures s in ws <==> s in Raised(ws, i)
    {
      RemoveAtHas(ws, i, s);
      InsertAtHas(rest, at, ws[i], s);
    }
  }

  lemma RemoveAtHas(ws: seq<Surface>, i: nat, s: Surface)
    requires i < |ws|
    ensures s in ws <==> s == ws[i] || s in RemoveAt(ws, i)
  {
    assert ws == ws[..i] + [ws[i]] + ws[i + 1..];
  }

  lemma InsertAtHas(ws: seq<Surface>, at: nat, x: Surface, s: Surface)
    requires at <= |ws|
    ensures s in InsertAt(ws, at, x) <==> s == x || s in ws
  {
    assert ws == ws[..at] + ws[at..];
  }

  // ---- the index loops of the source, against the functions above ---------------------

  method FindIndex(ws: seq<Surface>, id: nat) returns (r: Option<nat>)
    ensures r == IndexOf(ws, id)
  {
    var i := 0;
    while i < |ws|
      invariant 0 <= i <= |ws|
      invariant forall k :: 0 <= k < i ==> ws[k].id != id
    {
      if ws[i].id == id {
        return Some(i);
      }
      i := i + 1;
    }
    return None;
  }

  method CollectKids(ws: seq<Surface>, id: nat) returns (kids: seq<nat>)
    ensures kids == Kids(ws, id)
  {
    kids := [];
    var i := 0;
    while i < |ws|
      invariant 0 <= i <= |ws|
      invariant kids == Kids(ws[..i], id)
    {
      assert ws[..i + 1][..i] == ws[..i];
      if ws[i].id != id && ws[i].role == Toplevel && ws[i].parent == Some(id) {
        kids := kids + [ws[i].id];
      }
      i := i + 1;
    }
    assert ws[..i] == ws;
  }

  /** Shift the surfaces above `idx` down to the top of its band. */
  method ShiftUp(ws: seq<Surface>, idx: nat) returns (moved: bool, ws': seq<Surface>)
    requires Stacked(ws) && idx < |ws|
    ensures ws' == Raised(ws, idx)
    ensures !moved ==> ws' == ws
  {
    var top, i := idx, idx + 1;
    while i < |ws| && Band(ws[i]) <= Band(ws[idx])
      invariant idx + 1 <= i <= |ws| && top == i - 1
      invariant forall k :: idx <= k < i ==> Band(ws[k]) <= Band(ws[idx])
    {
      top := i;
      i := i + 1;
    }
    RaisedByShift(ws, idx, top);
    if top == idx {
      return false, ws;
    }
    return true, ws[..idx] + ws[idx + 1..top + 1] + [ws[idx]] + ws[top + 1..];
  }

  lemma RaisedByShift(ws: seq<Surface>, idx: nat, top: nat)
    requires Stacked(ws) && idx <= top < |ws|
    requires Band(ws[top]) <= Band(ws[idx]) && (top + 1 < |ws| ==> Band(ws[top + 1]) > Band(ws[idx]))
    ensures Raised(ws, idx) == ws[..idx] + ws[idx + 1..top + 1] + [ws[idx]] + ws[top + 1..]
    ensures top == idx ==> Raised(ws, idx) == ws
  {
    var rest, band := RemoveAt(ws, idx), Band(ws[idx]);
    RemoveAtStacked(ws, idx);
    EndOfBandIs(rest, band, top);
    RestSplitUp(ws, idx, top);
  }

  lemma RestSplitUp(ws: seq<Surface>, idx: nat, top: nat)
    requires idx <= top < |ws|
    ensures InsertAt(RemoveAt(ws, idx), top, ws[idx]) == ws[..idx] + ws[idx + 1..top + 1] + [ws[idx]] + ws[top + 1..]
    ensures top == idx ==> InsertAt(RemoveAt(ws, idx), top, ws[idx]) == ws
  {
    var rest := RemoveAt(ws, idx);
    assert rest[..top] == ws[..idx] + ws[idx + 1..top + 1];
    assert rest[top..] == ws[top + 1..];
  }

  lemma EndOfBandIs(ws: seq<Surface>, band: int, at: nat)
    requires BandSorted(ws) && at <= |ws|
    requires at > 0 ==> Band(ws[at - 1]) <= band
    requires at < |ws| ==> Band(ws[at]) > band
    ensures EndOfBand(ws, band) == at
  {
  }

  lemma StartOfBandIs(ws: seq<Surface>, band: int, at: nat)
    requires BandSorted(ws) && at <= |ws|
    requires at > 0 ==> Band(ws[at - 1]) < band
    requires at < |ws| ==> Band(ws[at]) >= band
    ensures StartOfBand(ws, band) == at
  {
  }

  /** Shift the surfaces below `idx` up from the bottom of its band. */
  method ShiftDown(ws: seq<Surface>, idx: nat) returns (moved: bool, ws': seq<Surface>)
    requires Stacked(ws) && idx < |ws|
    ensures ws' == Lowered(ws, idx)
    ensures !moved ==> ws' == ws
  {
    var bottom := idx;
    while bottom > 0 && Band(ws[bottom - 1]) >= Band(ws[idx])
      invariant 0 <= bottom <= idx
      invariant Band(ws[bottom]) >= Band(ws[idx])
    {
      bottom := bottom - 1;
    }
    LoweredByShift(ws, idx, bottom);
    if bottom == idx {
      return false, ws;
    }
    return true, ws[..bottom] + [ws[idx]] + ws[bottom..idx] + ws[idx + 1..];
  }

  lemma LoweredByShift(ws: seq<Surface>, idx: nat, bottom: nat)
    requires Stacked(ws) && bottom <= idx < |ws|
    requires Band(ws[bottom]) >= Band(ws[idx]) && (bottom > 0 ==> Band(ws[bottom - 1]) < Band(ws[idx]))
    ensures Lowered(ws, idx) == ws[..bottom] + [ws[idx]] + ws[bottom..idx] + ws[idx + 1..]
    ensures bottom == idx ==> Lowered(ws, idx) == ws
  {
    var rest, band := RemoveAt(ws, idx), Band(ws[idx]);
    RemoveAtStacked(ws, idx);
    StartOfBandIs(rest, band, bottom);
    RestSplit(ws, idx, bottom);
  }

  lemma RestSplit(ws: seq<Surface>, idx: nat, bottom: nat)
    requires bottom <= idx < |ws|
    ensures InsertAt(RemoveAt(ws, idx), bottom, ws[idx]) == ws[..bottom] + [ws[idx]] + ws[bottom..idx] + ws[idx + 1..]
    ensures bottom == idx ==> InsertAt(RemoveAt(ws, idx), bottom, ws[idx]) == ws
  {
    var rest := RemoveAt(ws, idx);
    assert rest[..bottom] == ws[..bottom];
    assert rest[bottom..] == ws[bottom..idx] + ws[idx + 1..];
  }

  /** Where a newly mapped surface goes: the end of its band. */
  method FindBandEnd(ws: seq<Surface>, band: int) returns (at: nat)
    requires BandSorted(ws)
    ensures at == EndOfBand(ws, band)
  {
    at := 0;
    while at < |ws| && Band(ws[at]) <= band
      invariant 0 <= at <= |ws|
      invariant at > 0 ==> Band(ws[at - 1]) <= band
    {
      at := at + 1;
    }
    EndOfBandIs(ws, band, at);
  }
}
