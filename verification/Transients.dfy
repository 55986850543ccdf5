/** Raising a window keeps its dialogs in front: after `RaiseTree`, every mapped
    transient toplevel below the raised window lies above its parent, the whole
    family lies above the rest of its band, and nobody else changes order. */
module Transients {
  import opened Options
  import opened Geometry
  import opened Scene
  import opened ZOrder

  const WINDOW_BAND := 2

  /** `c` is a mapped toplevel whose transient parent is `p`. */
  ghost predicate IsKid(ws: seq<Surface>, p: nat, c: nat) {
    exists s :: s in ws && s.id == c && s.id != p && s.role == Toplevel && s.parent == Some(p)
  }

  /** `c` is reached from `root` by `k` transient steps through mapped windows. */
  ghost predicate Descends(ws: seq<Surface>, root: nat, c: nat, k: nat)
    decreases k
  {
    if k == 0 then c == root else exists p :: IsKid(ws, p, c) && Descends(ws, root, p, k - 1)
  }

  ghost predicate InTree(ws: seq<Surface>, root: nat, c: nat) {
    exists k: nat :: Descends(ws, root, c, k)
  }

  ghost predicate InTrees(ws: seq<Surface>, roots: seq<nat>, c: nat) {
    exists i :: 0 <= i < |roots| && InTree(ws, roots[i], c)
  }

  /** The parent links form no cycle. */
  ghost predicate Ranked(ws: seq<Surface>, rank: nat -> nat) {
    forall p, c :: IsKid(ws, p, c) ==> rank(p) < rank(c)
  }

  /** No transient chain below `root` is longer than the recursion goes. */
  ghost predicate DepthEnough(ws: seq<Surface>, root: nat, depth: nat) {
    forall c, k: nat :: Descends(ws, root, c, k) ==> k <= depth
  }

  /** What raising a family does to the stack. */
  ghost predicate FamilyRaised(ws: seq<Surface>, ws': seq<Surface>, family: iset<nat>) {
    && Stacked(ws') && SameSurfaces(ws, ws')
    && (forall a, b :: a !in family && b !in family ==> (Before(ws', a, b) <==> Before(ws, a, b)))
    && (forall a, b :: a !in family && b in family && InBand(ws, a, WINDOW_BAND) && IsMapped(ws, b) ==> Before(ws', a, b))
    && (forall p, c :: p in family && c in family && IsKid(ws, p, c) && IsMapped(ws, p) ==> Before(ws', p, c))
  }

  ghost function Tree(ws: seq<Surface>, root: nat): iset<nat> {
    iset c | InTree(ws, root, c)
  }

  ghost function Trees(ws: seq<Surface>, roots: seq<nat>): iset<nat> {
    iset c | InTrees(ws, roots, c)
  }

  // ---- the tree depends only on which surfaces are mapped -------------------------

  lemma SameKids(ws: seq<Surface>, ws': seq<Surface>, p: nat, c: nat)
    requires SameSurfaces(ws, ws')
    ensures IsKid(ws, p, c) <==> IsKid(ws', p, c)
  {
  }

  lemma {:induction false} SameDescends(ws: seq<Surface>, ws': seq<Surface>, root: nat, c: nat, k: nat)
    requires SameSurfaces(ws, ws') && Descends(ws, root, c, k)
    ensures Descends(ws', root, c, k)
    decreases k
  {
    if k > 0 {
      var p :| IsKid(ws, p, c) && Descends(ws, root, p, k - 1);
      SameKids(ws, ws', p, c);
      SameDescends(ws, ws', root, p, k - 1);
    }
  }

  lemma SameTree(ws: seq<Surface>, ws': seq<Surface>, root: nat)
    requires SameSurfaces(ws, ws')
    ensures Tree(ws, root) == Tree(ws', root)
    ensures forall depth :: DepthEnough(ws, root, depth) ==> DepthEnough(ws', root, depth)
  {
    forall c, k: nat ensures Descends(ws, root, c, k) <==> Descends(ws', root, c, k) {
      if Descends(ws, root, c, k) {
        SameDescends(ws, ws', root, c, k);
      }
      if Descends(ws', root, c, k) {
        SameDescends(ws', ws, root, c, k);
      }
    }
    forall c ensures InTree(ws, root, c) <==> InTree(ws', root, c) {
    }
  }

  lemma SameTrees(ws: seq<Surface>, ws': seq<Surface>, roots: seq<nat>)
    requires SameSurfaces(ws, ws')
    ensures Trees(ws, roots) == Trees(ws', roots)
  {
    forall i | 0 <= i < |roots| ensures Tree(ws, roots[i]) == Tree(ws', roots[i]) {
      SameTree(ws, ws', roots[i]);
    }
    forall c ensures InTrees(ws, roots, c) <==> InTrees(ws', roots, c) {
      if InTrees(ws, roots, c) {
        var i :| 0 <= i < |roots| && InTree(ws, roots[i], c);
        assert c in Tree(ws, roots[i]);
        assert InTree(ws', roots[i], c);
      }
      if InTrees(ws', roots, c) {
        var i :| 0 <= i < |roots| && InTree(ws', roots[i], c);
        assert c in Tree(ws', roots[i]);
        assert InTree(ws, roots[i], c);
      }
    }
  }

  lemma SameMembership(ws: seq<Surface>, ws': seq<Surface>, id: nat)
    requires SameSurfaces(ws, ws')
    ensures IsMapped(ws, id) <==> IsMapped(ws', id)
    ensures forall band :: InBand(ws, id, band) <==> InBand(ws', id, band)
  {
    forall s ensures s in ws <==> s in ws' {
    }
    assert forall i :: 0 <= i < |ws| ==> ws[i] in ws';
    assert forall i :: 0 <= i < |ws'| ==> ws'[i] in ws;
  }

  // ---- structure of the forest -----------------------------------------------------

  /** A mapped surface has one parent. */
  lemma OneParent(ws: seq<Surface>, p: nat, q: nat, c: nat)
    requires DistinctIds(ws) && IsKid(ws, p, c) && IsKid(ws, q, c)
    ensures p == q
  {
    var s :| s in ws && s.id == c && s.id != p && s.role == Toplevel && s.parent == Some(p);
    var t :| t in ws && t.id == c && t.id != q && t.role == Toplevel && t.parent == Some(q);
    var i :| 0 <= i < |ws| && ws[i] == s;
    var j :| 0 <= j < |ws| && ws[j] == t;
  }

  /** Going down never lowers the rank. */
  lemma {:induction false} DescendsRank(ws: seq<Surface>, root: nat, c: nat, k: nat, rank: nat -> nat)
    requires Ranked(ws, rank) && Descends(ws, root, c, k)
    ensures k > 0 ==> rank(root) < rank(c)
    ensures k == 0 ==> c == root
    decreases k
  {
    if k > 0 {
      var p :| IsKid(ws, p, c) && Descends(ws, root, p, k - 1);
      DescendsRank(ws, root, p, k - 1, rank);
    }
  }

  /** A step down from the root first, then the rest. */
  lemma {:induction false} DescendsFromKid(ws: seq<Surface>, root: nat, kid: nat, c: nat, k: nat)
    requires IsKid(ws, root, kid) && Descends(ws, kid, c, k)
    ensures Descends(ws, root, c, k + 1)
    decreases k
  {
    if k == 0 {
      assert Descends(ws, root, root, 0);
    } else {
      var p :| IsKid(ws, p, c) && Descends(ws, kid, p, k - 1);
      DescendsFromKid(ws, root, kid, p, k - 1);
    }
  }

  lemma {:induction false} DescendsViaKid(ws: seq<Surface>, root: nat, c: nat, k: nat) returns (kid: nat)
    requires k > 0 && Descends(ws, root, c, k)
    ensures IsKid(ws, root, kid) && Descends(ws, kid, c, k - 1)
    decreases k
  {
    var p :| IsKid(ws, p, c) && Descends(ws, root, p, k - 1);
    if k == 1 {
      kid := c;
    } else {
      kid := DescendsViaKid(ws, root, p, k - 1);
    }
  }

  /** No sibling descends from another. */
  lemma SiblingsApart(ws: seq<Surface>, p: nat, a: nat, b: nat, k: nat, rank: nat -> nat)
    requires DistinctIds(ws) && Ranked(ws, rank)
    requires IsKid(ws, p, a) && IsKid(ws, p, b) && a != b
    ensures !Descends(ws, b, a, k)
  {
    if Descends(ws, b, a, k) {
      DescendsRank(ws, b, a, k, rank);
      if k > 0 {
        var q :| IsKid(ws, q, a) && Descends(ws, b, q, k - 1);
        OneParent(ws, p, q, a);
        DescendsRank(ws, b, p, k - 1, rank);
      }
    }
  }

  /** Two families with different roots of one generation share nobody. */
  lemma {:induction false} TreesApart(ws: seq<Surface>, p: nat, a: nat, b: nat, c: nat, j: nat, k: nat, rank: nat -> nat)
    requires DistinctIds(ws) && Ranked(ws, rank)
    requires IsKid(ws, p, a) && IsKid(ws, p, b) && a != b
    requires Descends(ws, a, c, j) && Descends(ws, b, c, k)
    ensures false
    decreases j
  {
    if j == 0 {
      SiblingsApart(ws, p, a, b, k, rank);
    } else if k == 0 {
      SiblingsApart(ws, p, b, a, j, rank);
    } else {
      var q :| IsKid(ws, q, c) && Descends(ws, a, q, j - 1);
      var r :| IsKid(ws, r, c) && Descends(ws, b, r, k - 1);
      OneParent(ws, q, r, c);
      TreesApart(ws, p, a, b, q, j - 1, k - 1, rank);
    }
  }

  ghost predicate Distinct(ids: seq<nat>) {
    forall i, j :: 0 <= i < j < |ids| ==> ids[i] != ids[j]
  }

  lemma {:induction false} KidsAre(ws: seq<Surface>, id: nat)
    requires DistinctIds(ws)
    ensures forall c :: c in Kids(ws, id) <==> IsKid(ws, id, c)
    ensures Distinct(Kids(ws, id))
  {
    if ws == [] {
    } else {
      var n := |ws| - 1;
      var front, s := ws[..n], ws[n];
      KidsAre(front, id);
      assert ws == front + [s];
      forall t | t in front ensures t.id != s.id {
        var i :| 0 <= i < n && front[i] == t;
        assert ws[i].id != ws[n].id;
      }
      assert !IsKid(front, id, s.id);
      assert s.id !in Kids(front, id);
      forall i, j | 0 <= i < j < |Kids(ws, id)| ensures Kids(ws, id)[i] != Kids(ws, id)[j] {
        assert Kids(ws, id)[i] in Kids(front, id);
        assert j < |Kids(front, id)| ==> Kids(ws, id)[j] == Kids(front, id)[j];
      }
      forall c ensures c in Kids(ws, id) <==> IsKid(ws, id, c) {
        if IsKid(front, id, c) {
          var t :| t in front && t.id == c && t.id != id && t.role == Toplevel && t.parent == Some(id);
          assert t in ws;
        }
      }
    }
  }

  // ---- the induction over the recursive raise -----------------------------------------

  /** The roots still to be raised: distinct windows with separate families. */
  ghost predicate Siblings(ws: seq<Surface>, p: nat, kids: seq<nat>, depth: nat) {
    && Distinct(kids)
    && (forall i :: 0 <= i < |kids| ==> IsKid(ws, p, kids[i]))
    && (forall i :: 0 <= i < |kids| ==> DepthEnough(ws, kids[i], depth))
  }

  lemma KidInBand(ws: seq<Surface>, p: nat, c: nat)
    requires IsKid(ws, p, c)
    ensures IsMapped(ws, c) && InBand(ws, c, WINDOW_BAND)
  {
    var s :| s in ws && s.id == c && s.id != p && s.role == Toplevel && s.parent == Some(p);
    var i :| 0 <= i < |ws| && ws[i] == s;
  }

  lemma RankedSame(ws: seq<Surface>, ws': seq<Surface>, rank: nat -> nat)
    requires SameSurfaces(ws, ws') && Ranked(ws, rank)
    ensures Ranked(ws', rank)
  {
    forall p, c | IsKid(ws', p, c) ensures rank(p) < rank(c) {
      SameKids(ws, ws', p, c);
    }
  }

  lemma SiblingsSame(ws: seq<Surface>, ws': seq<Surface>, p: nat, kids: seq<nat>, depth: nat)
    requires SameSurfaces(ws, ws') && Siblings(ws, p, kids, depth)
    ensures Siblings(ws', p, kids, depth)
  {
    forall i | 0 <= i < |kids| ensures IsKid(ws', p, kids[i]) && DepthEnough(ws', kids[i], depth) {
      SameKids(ws, ws', p, kids[i]);
      SameTree(ws, ws', kids[i]);
    }
  }

  /** Raising one family and then a separate one raises both. */
  lemma FamiliesCompose(ws: seq<Surface>, ws1: seq<Surface>, ws2: seq<Surface>, f: iset<nat>, g: iset<nat>)
    requires FamilyRaised(ws, ws1, f) && FamilyRaised(ws1, ws2, g)
    requires f !! g
    requires forall p, c :: IsKid(ws, p, c) && p in f ==> c in f
    requires forall p, c :: IsKid(ws, p, c) && p in g ==> c in g
    ensures FamilyRaised(ws, ws2, f + g)
  {
    forall a, b | a !in f + g && b in f + g && InBand(ws, a, WINDOW_BAND) && IsMapped(ws, b)
      ensures Before(ws2, a, b)
    {
      SameMembership(ws, ws1, a);
      SameMembership(ws, ws1, b);
    }
    forall p, c | p in f + g && c in f + g && IsKid(ws, p, c) && IsMapped(ws, p)
      ensures Before(ws2, p, c)
    {
      SameKids(ws, ws1, p, c);
      SameMembership(ws, ws1, p);
    }
  }

  lemma TreeClosed(ws: seq<Surface>, root: nat, p: nat, c: nat)
    requires p in Tree(ws, root) && IsKid(ws, p, c)
    ensures c in Tree(ws, root)
  {
    var k: nat :| Descends(ws, root, p, k);
    assert Descends(ws, root, c, k + 1);
  }

  lemma TreesClosed(ws: seq<Surface>, roots: seq<nat>, p: nat, c: nat)
    requires p in Trees(ws, roots) && IsKid(ws, p, c)
    ensures c in Trees(ws, roots)
  {
    var i :| 0 <= i < |roots| && InTree(ws, roots[i], p);
    TreeClosed(ws, roots[i], p, c);
  }

  lemma TreesSplit(ws: seq<Surface>, p: nat, kids: seq<nat>, depth: nat, rank: nat -> nat)
    requires kids != [] && Siblings(ws, p, kids, depth) && DistinctIds(ws) && Ranked(ws, rank)
    ensures Trees(ws, kids) == Tree(ws, kids[0]) + Trees(ws, kids[1..])
    ensures Tree(ws, kids[0]) !! Trees(ws, kids[1..])
  {
    var rest := kids[1..];
    forall c ensures InTrees(ws, kids, c) <==> InTree(ws, kids[0], c) || InTrees(ws, rest, c) {
      if InTrees(ws, rest, c) {
        var i :| 0 <= i < |rest| && InTree(ws, rest[i], c);
        assert kids[i + 1] == rest[i];
      }
      if InTrees(ws, kids, c) {
        var i :| 0 <= i < |kids| && InTree(ws, kids[i], c);
        assert i > 0 ==> rest[i - 1] == kids[i];
      }
    }
    forall c | c in Tree(ws, kids[0]) ensures c !in Trees(ws, rest) {
      if c in Trees(ws, rest) {
        var i :| 0 <= i < |rest| && InTree(ws, rest[i], c);
        var j: nat :| Descends(ws, kids[0], c, j);
        var k: nat :| Descends(ws, rest[i], c, k);
        assert rest[i] == kids[i + 1];
        TreesApart(ws, p, kids[0], kids[i + 1], c, j, k, rank);
      }
    }
  }

  lemma {:induction false} RaiseAllOrder(ws: seq<Surface>, p: nat, kids: seq<nat>, depth: nat, rank: nat -> nat)
    requires Stacked(ws) && Ranked(ws, rank) && Siblings(ws, p, kids, depth)
    ensures FamilyRaised(ws, RaiseAll(ws, kids, depth), Trees(ws, kids))
    decreases depth, 2, |kids|
  {
    if kids == [] {
    } else {
      KidInBand(ws, p, kids[0]);
      RaiseTreeOrder(ws, kids[0], depth, rank);
      var ws1 := RaiseTree(ws, kids[0], depth);
      RankedSame(ws, ws1, rank);
      SiblingsSame(ws, ws1, p, kids, depth);
      assert Siblings(ws1, p, kids[1..], depth);
      RaiseAllOrder(ws1, p, kids[1..], depth, rank);
      SameTrees(ws, ws1, kids[1..]);
      TreesSplit(ws, p, kids, depth, rank);
      forall q, c | IsKid(ws, q, c)
        ensures q in Tree(ws, kids[0]) ==> c in Tree(ws, kids[0])
        ensures q in Trees(ws, kids[1..]) ==> c in Trees(ws, kids[1..])
      {
        if q in Tree(ws, kids[0]) { TreeClosed(ws, kids[0], q, c); }
        if q in Trees(ws, kids[1..]) { TreesClosed(ws, kids[1..], q, c); }
      }
      FamiliesCompose(ws, ws1, RaiseAll(ws1, kids[1..], depth), Tree(ws, kids[0]), Trees(ws, kids[1..]));
    }
  }

  /** The family of a surface is the surface and its kids' families. */
  lemma TreeSplit(ws: seq<Surface>, id: nat, kids: seq<nat>, rank: nat -> nat)
    requires DistinctIds(ws) && Ranked(ws, rank)
    requires forall c :: c in kids <==> IsKid(ws, id, c)
    ensures Tree(ws, id) == iset{id} + Trees(ws, kids)
    ensures id !in Trees(ws, kids)
  {
    forall c ensures InTree(ws, id, c) <==> c == id || InTrees(ws, kids, c) {
      if InTree(ws, id, c) {
        var k: nat :| Descends(ws, id, c, k);
        if k > 0 {
          var kid := DescendsViaKid(ws, id, c, k);
          var i :| 0 <= i < |kids| && kids[i] == kid;
          assert InTree(ws, kids[i], c);
        }
      }
      if c == id {
        assert Descends(ws, id, c, 0);
      }
      if InTrees(ws, kids, c) {
        var i :| 0 <= i < |kids| && InTree(ws, kids[i], c);
        var k: nat :| Descends(ws, kids[i], c, k);
        DescendsFromKid(ws, id, kids[i], c, k);
      }
    }
    if id in Trees(ws, kids) {
      var i :| 0 <= i < |kids| && InTree(ws, kids[i], id);
      var k: nat :| Descends(ws, kids[i], id, k);
      DescendsFromKid(ws, id, kids[i], id, k);
      DescendsRank(ws, id, id, k + 1, rank);
      assert false;
    }
  }

  /** Raising only the root is raising the family {root}. */
  lemma RaiseOneOrder(ws: seq<Surface>, id: nat, rank: nat -> nat)
    requires Stacked(ws) && Ranked(ws, rank)
    requires IsMapped(ws, id) ==> InBand(ws, id, WINDOW_BAND)
    ensures FamilyRaised(ws, RaiseOne(ws, id), iset{id})
  {
    if IndexOf(ws, id).Some? {
      var i := IndexOf(ws, id).value;
      RaisedOrder(ws, i);
      var j :| 0 <= j < |ws| && ws[j].id == id && Band(ws[j]) == WINDOW_BAND;
      assert j == i;
    }
  }

  /** After the root moved, its kids are the siblings of the next round. */
  lemma KidsAreSiblings(ws: seq<Surface>, id: nat, depth: nat)
    requires DistinctIds(ws) && DepthEnough(ws, id, depth) && depth > 0
    ensures Siblings(ws, id, Kids(ws, id), depth - 1)
  {
    var kids := Kids(ws, id);
    KidsAre(ws, id);
    forall i | 0 <= i < |kids| ensures IsKid(ws, id, kids[i]) && DepthEnough(ws, kids[i], depth - 1) {
      assert kids[i] in kids;
      forall c, k: nat | Descends(ws, kids[i], c, k) ensures k <= depth - 1 {
        DescendsFromKid(ws, id, kids[i], c, k);
      }
    }
  }

  lemma ChildlessTree(ws: seq<Surface>, id: nat)
    requires DepthEnough(ws, id, 0)
    ensures Tree(ws, id) == iset{id}
  {
    assert Descends(ws, id, id, 0);
    forall c | InTree(ws, id, c) ensures c == id {
      var k: nat :| Descends(ws, id, c, k);
    }
  }

  lemma {:induction false} RaiseTreeOrder(ws: seq<Surface>, id: nat, depth: nat, rank: nat -> nat)
    requires Stacked(ws) && Ranked(ws, rank) && DepthEnough(ws, id, depth)
    requires IsMapped(ws, id) ==> InBand(ws, id, WINDOW_BAND)
    ensures FamilyRaised(ws, RaiseTree(ws, id, depth), Tree(ws, id))
    decreases depth, 1, 0
  {
    var ws1 := RaiseOne(ws, id);
    RaiseOneOrder(ws, id, rank);
    if depth == 0 {
      ChildlessTree(ws, id);
    } else {
      var kids := Kids(ws1, id);
      assert Siblings(ws1, id, kids, depth - 1) && Ranked(ws1, rank) by {
        RankedSame(ws, ws1, rank);
        SameTree(ws, ws1, id);
        KidsAreSiblings(ws1, id, depth);
      }
      RaiseAllOrder(ws1, id, kids, depth - 1, rank);
      var ws2 := RaiseAll(ws1, kids, depth - 1);
      var g := Trees(ws1, kids);
      assert Tree(ws, id) == iset{id} + g && id !in g by {
        KidsAre(ws1, id);
        TreeSplit(ws1, id, kids, rank);
        SameTree(ws, ws1, id);
      }
      forall p, c | IsKid(ws, p, c) && p in g ensures c in g {
        SameKids(ws, ws1, p, c);
        TreesClosed(ws1, kids, p, c);
      }
      RootBelowKids(ws, ws1, ws2, id, g);
    }
  }

  /** The root was raised first, then everything below it. */
  lemma RootBelowKids(ws: seq<Surface>, ws1: seq<Surface>, ws2: seq<Surface>, id: nat, g: iset<nat>)
    requires FamilyRaised(ws, ws1, iset{id}) && FamilyRaised(ws1, ws2, g) && id !in g
    requires IsMapped(ws, id) ==> InBand(ws, id, WINDOW_BAND)
    requires forall p, c :: IsKid(ws, p, c) && p in g ==> c in g
    ensures FamilyRaised(ws, ws2, iset{id} + g)
  {
    var f := iset{id} + g;
    forall a, b | a !in f && b in f && InBand(ws, a, WINDOW_BAND) && IsMapped(ws, b)
      ensures Before(ws2, a, b)
    {
      SameMembership(ws, ws1, a);
      SameMembership(ws, ws1, b);
    }
    forall p, c | p in f && c in f && IsKid(ws, p, c) && IsMapped(ws, p)
      ensures Before(ws2, p, c)
    {
      SameKids(ws, ws1, p, c);
      SameMembership(ws, ws1, p);
      KidInBand(ws, p, c);
      SameMembership(ws, ws1, c);
    }
  }

  // ---- the depth cap is never the limit ------------------------------------------------

  ghost function IdSet(ws: seq<Surface>): set<nat> {
    set s | s in ws :: s.id
  }

  lemma {:induction false} IdSetSize(ws: seq<Surface>)
    ensures |IdSet(ws)| <= |ws|
  {
    if ws == [] {
    } else {
      var front := ws[..|ws| - 1];
      IdSetSize(front);
      assert ws == front + [ws[|ws| - 1]];
      assert IdSet(ws) == IdSet(front) + {ws[|ws| - 1].id};
    }
  }

  /** A chain of `k` steps visits `k + 1` different mapped surfaces. */
  lemma {:induction false} ChainIds(ws: seq<Surface>, root: nat, c: nat, k: nat, rank: nat -> nat) returns (ids: set<nat>)
    requires Ranked(ws, rank) && Descends(ws, root, c, k)
    ensures |ids| == k && ids <= IdSet(ws)
    ensures forall x :: x in ids ==> rank(x) <= rank(c)
    decreases k
  {
    if k == 0 {
      ids := {};
    } else {
      var p :| IsKid(ws, p, c) && Descends(ws, root, p, k - 1);
      var above := ChainIds(ws, root, p, k - 1, rank);
      var s :| s in ws && s.id == c && s.id != p && s.role == Toplevel && s.parent == Some(p);
      ids := above + {c};
    }
  }

  lemma DepthCapEnough(ws: seq<Surface>, id: nat, rank: nat -> nat)
    requires Ranked(ws, rank) && |ws| <= MAX_SURFACES
    ensures DepthEnough(ws, id, MAX_SURFACES)
  {
    forall c, k: nat | Descends(ws, id, c, k) ensures k <= MAX_SURFACES {
      var ids := ChainIds(ws, id, c, k, rank);
      IdSetSize(ws);
      SubsetSize(ids, IdSet(ws));
    }
  }

  lemma {:induction false} SubsetSize(a: set<nat>, b: set<nat>)
    requires a <= b
    ensures |a| <= |b|
  {
    if a == {} {
    } else {
      var x :| x in a;
      SubsetSize(a - {x}, b - {x});
    }
  }

  /** Raising a window of an acyclic forest: its whole family comes to the front
      of the window band, every transient of the family lies above its parent,
      and all other surfaces keep their relative order. */
  lemma RaiseBringsFamily(ws: seq<Surface>, id: nat, rank: nat -> nat)
    requires Stacked(ws) && |ws| <= MAX_SURFACES && Ranked(ws, rank)
    requires InBand(ws, id, WINDOW_BAND)
    ensures FamilyRaised(ws, RaiseTree(ws, id, MAX_SURFACES), Tree(ws, id))
  {
    DepthCapEnough(ws, id, rank);
    RaiseTreeOrder(ws, id, MAX_SURFACES, rank);
  }
}
