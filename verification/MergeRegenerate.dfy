/** What the merge driver guarantees: versions never go back, retirements survive
    exactly when the other side left the package alone, the two sides are treated
    alike, and merging generated indexes is generating from the merged pool. */
module MergeRegenerate {
  import opened Options
  import opened VersionOrder
  import opened Versions
  import opened Sorting
  import opened IndexMerge

  // ---- general laws of one decision -----------------------------------------------------

  /** A package on both sides is kept, at a version at least as new as each. */
  lemma VersionNeverDrops(vcmp: VersionCmp, base: Option<Stanza>, m: Stanza, o: Stanza)
    requires TotalPreorder(vcmp)
    ensures var c := Choose(vcmp, base, Some(m), Some(o));
            && !c.Drop? && c.stanza in {m, o}
            && vcmp(c.stanza.version, m.version) >= 0 && vcmp(c.stanza.version, o.version) >= 0
  {
    assert vcmp(m.version, m.version) == 0 && vcmp(o.version, o.version) == 0;
    assert vcmp(m.version, o.version) == -vcmp(o.version, m.version);
  }

  /** A package on one side only is retired exactly when that side left the
      ancestor's stanza untouched. */
  lemma RetirementExactly(vcmp: VersionCmp, base: Option<Stanza>, s: Stanza)
    ensures Choose(vcmp, base, Some(s), None).Drop? <==> base == Some(s)
    ensures Choose(vcmp, base, None, Some(s)) == Choose(vcmp, base, Some(s), None)
  {
  }

  /** The merge is left to a human exactly when both sides publish one version of
      a package with different payloads. */
  lemma ConflictExactly(vcmp: VersionCmp, base: Option<Stanza>, mine: Option<Stanza>, other: Option<Stanza>)
    ensures Choose(vcmp, base, mine, other).Conflict? <==>
            mine.Some? && other.Some? && vcmp(mine.value.version, other.value.version) == 0 &&
            mine.value.sha != other.value.sha
  {
  }

  /** Both sides edited the stanza of one payload. */
  predicate BothEdited(vcmp: VersionCmp, base: Option<Stanza>, mine: Option<Stanza>, other: Option<Stanza>) {
    && mine.Some? && other.Some? && mine != other && base != mine && base != other
    && vcmp(mine.value.version, other.value.version) == 0 && mine.value.sha == other.value.sha
  }

  /** Swapping the sides changes nothing, except for a conflict or where both
      edited the same payload's stanza. */
  lemma SidesAlike(vcmp: VersionCmp, base: Option<Stanza>, mine: Option<Stanza>, other: Option<Stanza>)
    requires TotalPreorder(vcmp)
    ensures Choose(vcmp, base, mine, other).Conflict? <==> Choose(vcmp, base, other, mine).Conflict?
    ensures !Choose(vcmp, base, mine, other).Conflict? ==>
              (Choose(vcmp, base, mine, other) == Choose(vcmp, base, other, mine) <==> !BothEdited(vcmp, base, mine, other))
  {
    if mine.Some? && other.Some? {
      assert vcmp(mine.value.version, other.value.version) == -vcmp(other.value.version, mine.value.version);
    }
  }

  // ---- merging generated indexes ------------------------------------------------------------

  /** Three pools, the ancestor contained in both sides, and their indexes. */
  ghost predicate Branches(vcmp: VersionCmp, ncmp: NameCmp, b: set<Stanza>, o: set<Stanza>, t: set<Stanza>,
                           gb: seq<Stanza>, go: seq<Stanza>, gt: seq<Stanza>) {
    && b <= o && b <= t
    && Generated(vcmp, ncmp, b, gb) && Generated(vcmp, ncmp, o, go) && Generated(vcmp, ncmp, t, gt)
  }

  /** Without version ties a package has one newest deb. */
  lemma NewestUnique(vcmp: VersionCmp, pool: set<Stanza>, s: Stanza, t: Stanza)
    requires TotalPreorder(vcmp) && NoVersionTies(vcmp, pool)
    requires Newest(vcmp, pool, s) && Newest(vcmp, pool, t) && s.package == t.package
    ensures s == t
  {
    assert vcmp(s.version, t.version) >= 0 && vcmp(t.version, s.version) >= 0;
    assert vcmp(s.version, t.version) == -vcmp(t.version, s.version);
  }

  /** A generated index holds exactly the newest debs. */
  lemma GeneratedIsNewest(vcmp: VersionCmp, ncmp: NameCmp, pool: set<Stanza>, g: seq<Stanza>, s: Stanza)
    requires TotalPreorder(vcmp) && NoVersionTies(vcmp, pool) && Generated(vcmp, ncmp, pool, g)
    ensures s in g <==> Newest(vcmp, pool, s)
  {
    if s in g {
      var i :| 0 <= i < |g| && g[i] == s;
    }
    if Newest(vcmp, pool, s) {
      assert Mentions(g, s.package);
      var i :| 0 <= i < |g| && g[i].package == s.package;
      NewestUnique(vcmp, pool, s, g[i]);
    }
  }

  /** The entry of a package in a pool's index: its newest deb, if it has any. */
  ghost predicate EntryOf(vcmp: VersionCmp, pool: set<Stanza>, p: string, entry: Option<Stanza>) {
    match entry
    case None => forall s :: s in pool ==> s.package != p
    case Some(s) => s.package == p && Newest(vcmp, pool, s)
  }

  lemma NotParsed(vcmp: VersionCmp, ncmp: NameCmp, pool: set<Stanza>, g: seq<Stanza>, p: string)
    requires Generated(vcmp, ncmp, pool, g) && p !in Parse(g)
    ensures forall s :: s in pool ==> s.package != p
  {
    forall s | s in pool
      ensures s.package != p
    {
      assert Mentions(g, s.package);
    }
  }

  /** Reading a generated index back gives each package its entry. */
  lemma ParsedEntry(vcmp: VersionCmp, ncmp: NameCmp, pool: set<Stanza>, g: seq<Stanza>, p: string)
    requires Generated(vcmp, ncmp, pool, g)
    ensures EntryOf(vcmp, pool, p, Get(Parse(g), p))
  {
    if p in Parse(g) {
      var i :| 0 <= i < |g| && g[i] == Parse(g)[p];
      assert Newest(vcmp, pool, g[i]);
    } else {
      NotParsed(vcmp, ncmp, pool, g, p);
    }
  }

  /** The newest of a union is the newer of the two newest. */
  lemma NewestOfUnion(vcmp: VersionCmp, o: set<Stanza>, t: set<Stanza>, m: Stanza, n: Stanza)
    requires TotalPreorder(vcmp) && Newest(vcmp, o, m) && Newest(vcmp, t, n) && m.package == n.package
    requires vcmp(m.version, n.version) >= 0
    ensures Newest(vcmp, o + t, m)
  {
    forall x | x in o + t && x.package == m.package ensures vcmp(m.version, x.version) >= 0 {
      if x in t {
        AtLeast(vcmp, m.version, n.version, x.version);
      }
    }
  }

  /** The driver picks the newest deb of the merged pool, never drops a package
      of either side, and never conflicts. */
  lemma ChoosesNewest(vcmp: VersionCmp, o: set<Stanza>, t: set<Stanza>, p: string,
                      base: Option<Stanza>, mine: Option<Stanza>, other: Option<Stanza>)
    requires TotalPreorder(vcmp) && NoVersionTies(vcmp, o + t)
    requires EntryOf(vcmp, o, p, mine) && EntryOf(vcmp, t, p, other)
    requires base.Some? ==> mine.Some? && other.Some?
    ensures mine.None? && other.None? ==> Choose(vcmp, base, mine, other).Drop? && EntryOf(vcmp, o + t, p, None)
    ensures mine.Some? || other.Some? ==>
              var c := Choose(vcmp, base, mine, other); c.Keep? && EntryOf(vcmp, o + t, p, Some(c.stanza))
  {
    match (mine, other)
    case (Some(m), Some(n)) => BothSides(vcmp, base, o, t, m, n);
    case (Some(m), None) => OnlySide(vcmp, o, t, m);
    case (None, Some(n)) => OnlySide(vcmp, t, o, n); assert t + o == o + t;
    case (None, None) =>
  }

  /** The decision for a package, on the indexes of two additive branches. */
  lemma DecidesNewest(vcmp: VersionCmp, ncmp: NameCmp, b: set<Stanza>, o: set<Stanza>, t: set<Stanza>,
                      gb: seq<Stanza>, go: seq<Stanza>, gt: seq<Stanza>, p: string)
    requires TotalPreorder(vcmp) && NoVersionTies(vcmp, o + t) && Branches(vcmp, ncmp, b, o, t, gb, go, gt)
    ensures var c := ChooseFor(vcmp, Parse(gb), Parse(go), Parse(gt), p);
            if p in Parse(go) || p in Parse(gt) then c.Keep? && EntryOf(vcmp, o + t, p, Some(c.stanza))
            else c.Drop? && EntryOf(vcmp, o + t, p, None)
  {
    ParsedEntry(vcmp, ncmp, b, gb, p);
    ParsedEntry(vcmp, ncmp, o, go, p);
    ParsedEntry(vcmp, ncmp, t, gt, p);
    if p in Parse(gb) {
      var s := Parse(gb)[p];
      assert s in o && s in t;
    }
    ChoosesNewest(vcmp, o, t, p, Get(Parse(gb), p), Get(Parse(go), p), Get(Parse(gt), p));
  }

  lemma BothSides(vcmp: VersionCmp, base: Option<Stanza>, o: set<Stanza>, t: set<Stanza>, m: Stanza, n: Stanza)
    requires TotalPreorder(vcmp) && NoVersionTies(vcmp, o + t)
    requires Newest(vcmp, o, m) && Newest(vcmp, t, n) && m.package == n.package
    ensures var c := Choose(vcmp, base, Some(m), Some(n));
            c.Keep? && Newest(vcmp, o + t, c.stanza) && c.stanza.package == m.package
  {
    assert vcmp(m.version, n.version) == -vcmp(n.version, m.version);
    assert m in o + t && n in o + t;
    if vcmp(m.version, n.version) >= 0 {
      NewestOfUnion(vcmp, o, t, m, n);
    } else {
      NewestOfUnion(vcmp, t, o, n, m);
      assert t + o == o + t;
    }
  }

  lemma OnlySide(vcmp: VersionCmp, o: set<Stanza>, t: set<Stanza>, m: Stanza)
    requires Newest(vcmp, o, m) && forall x :: x in t ==> x.package != m.package
    ensures Newest(vcmp, o + t, m)
  {
  }

  lemma StrictNames(ncmp: NameCmp, pool: set<Stanza>, g: seq<Stanza>)
    requires SortedBy(ncmp, g) && DistinctPackages(g) && NoNameTies(ncmp, pool)
    requires forall s :: s in g ==> s in pool
    ensures StrictlySortedBy(ncmp, g)
  {
    forall i, j | 0 <= i < j < |g| ensures ncmp(g[i], g[j]) < 0 {
      assert g[i] in g && g[j] in g;
    }
  }

  /** Merging the indexes of two branches that only added debs is generating the
      index of the merged pool: the same stanzas in the same order, no conflict. */
  lemma MergeIsRegenerate(vcmp: VersionCmp, ncmp: NameCmp, b: set<Stanza>, o: set<Stanza>, t: set<Stanza>,
                          gb: seq<Stanza>, go: seq<Stanza>, gt: seq<Stanza>, gu: seq<Stanza>,
                          ordered: seq<Stanza>, conflicts: seq<string>)
    requires TotalPreorder(vcmp) && TotalPreorder(ncmp)
    requires Branches(vcmp, ncmp, b, o, t, gb, go, gt) && Generated(vcmp, ncmp, o + t, gu)
    requires NoVersionTies(vcmp, o + t) && NoNameTies(ncmp, o + t)
    requires Merged(vcmp, ncmp, Parse(gb), Parse(go), Parse(gt), ordered, conflicts)
    ensures ordered == gu && conflicts == []
  {
    var u := o + t;
    forall s ensures s in ordered <==> Newest(vcmp, u, s) {
      KeptIsNewest(vcmp, ncmp, b, o, t, gb, go, gt, s);
    }
    SameListing(vcmp, ncmp, u, ordered, gu);
    NoConflict(vcmp, ncmp, b, o, t, gb, go, gt, conflicts);
  }

  /** A sorted, duplicate-free list of the newest debs is the generated index. */
  lemma SameListing(vcmp: VersionCmp, ncmp: NameCmp, u: set<Stanza>, ordered: seq<Stanza>, gu: seq<Stanza>)
    requires TotalPreorder(vcmp) && TotalPreorder(ncmp) && NoVersionTies(vcmp, u) && NoNameTies(ncmp, u)
    requires Generated(vcmp, ncmp, u, gu) && SortedBy(ncmp, ordered) && DistinctPackages(ordered)
    requires forall s :: s in ordered <==> Newest(vcmp, u, s)
    ensures ordered == gu
  {
    forall s ensures s in gu <==> Newest(vcmp, u, s) {
      GeneratedIsNewest(vcmp, ncmp, u, gu, s);
    }
    StrictNames(ncmp, u, gu);
    StrictNames(ncmp, u, ordered);
    ListingUnique(ncmp, ordered, gu);
  }

  /** A stanza survives the merge exactly when it is the newest of the merged pool. */
  lemma KeptIsNewest(vcmp: VersionCmp, ncmp: NameCmp, b: set<Stanza>, o: set<Stanza>, t: set<Stanza>,
                     gb: seq<Stanza>, go: seq<Stanza>, gt: seq<Stanza>, s: Stanza)
    requires TotalPreorder(vcmp) && NoVersionTies(vcmp, o + t) && Branches(vcmp, ncmp, b, o, t, gb, go, gt)
    ensures var p := s.package;
            var c := ChooseFor(vcmp, Parse(gb), Parse(go), Parse(gt), p);
            ((p in Parse(go) || p in Parse(gt)) && !c.Drop? && c.stanza == s) <==> Newest(vcmp, o + t, s)
  {
    DecidesNewest(vcmp, ncmp, b, o, t, gb, go, gt, s.package);
    var c := ChooseFor(vcmp, Parse(gb), Parse(go), Parse(gt), s.package);
    if c.Keep? && Newest(vcmp, o + t, s) {
      NewestUnique(vcmp, o + t, s, c.stanza);
    }
  }

  lemma NoConflict(vcmp: VersionCmp, ncmp: NameCmp, b: set<Stanza>, o: set<Stanza>, t: set<Stanza>,
                   gb: seq<Stanza>, go: seq<Stanza>, gt: seq<Stanza>, conflicts: seq<string>)
    requires TotalPreorder(vcmp) && NoVersionTies(vcmp, o + t) && Branches(vcmp, ncmp, b, o, t, gb, go, gt)
    requires forall p :: p in conflicts <==> ChooseFor(vcmp, Parse(gb), Parse(go), Parse(gt), p).Conflict?
    ensures conflicts == []
  {
    if conflicts != [] {
      var p := conflicts[0];
      assert p in conflicts;
      DecidesNewest(vcmp, ncmp, b, o, t, gb, go, gt, p);
    }
  }

  // ---- with the repository's own orders -----------------------------------------------------

  /** Stanzas in the order of their package file names. */
  function ByFileName(s: Stanza, t: Stanza): int { CompareFileNames(s.filename, t.filename) }

  lemma RepositoryOrders()
    ensures TotalPreorder(MakeRepoCompare) && TotalPreorder(ByFileName)
  {
    VersionPreorder();
    FileNamePreorder();
    Pullback((s: Stanza) => s.filename, CompareFileNames, ByFileName);
  }

  /** Every deb's file name starts with its package name and an underscore. */
  ghost predicate NamedAfterPackage(pool: set<Stanza>) {
    forall s :: s in pool ==> SplitFileName(s.filename).package == s.package
  }

  lemma NamesApart(pool: set<Stanza>)
    requires NamedAfterPackage(pool)
    ensures NoNameTies(ByFileName, pool)
  {
    forall s, t | s in pool && t in pool && s.package != t.package
      ensures ByFileName(s, t) != 0
    {
      StrCmpFacts(s.package, t.package);
    }
  }

  method GenerateIndex(files: seq<Stanza>) returns (index: seq<Stanza>)
    ensures Generated(MakeRepoCompare, ByFileName, Elements(files), index)
  {
    RepositoryOrders();
    index := Generate(MakeRepoCompare, ByFileName, files);
  }

  method MergeIndexes(base: seq<Stanza>, ours: seq<Stanza>, theirs: seq<Stanza>)
    returns (ordered: seq<Stanza>, conflicts: seq<string>)
    ensures Merged(MakeRepoCompare, ByFileName, Parse(base), Parse(ours), Parse(theirs), ordered, conflicts)
  {
    RepositoryOrders();
    ordered, conflicts := Merge(MakeRepoCompare, ByFileName, Parse(base), Parse(ours), Parse(theirs));
  }

  /** Generate both branches and merge, or merge the pools and generate: the
      index is the same. */
  method MergeOrRegenerate(b: seq<Stanza>, o: seq<Stanza>, t: seq<Stanza>)
    returns (merged: seq<Stanza>, regenerated: seq<Stanza>, conflicts: seq<string>)
    requires Elements(b) <= Elements(o) && Elements(b) <= Elements(t)
    requires NoVersionTies(MakeRepoCompare, Elements(o + t)) && NamedAfterPackage(Elements(o + t))
    ensures merged == regenerated && conflicts == []
    ensures Generated(MakeRepoCompare, ByFileName, Elements(o + t), merged)
  {
    var gb := GenerateIndex(b);
    var go := GenerateIndex(o);
    var gt := GenerateIndex(t);
    regenerated := GenerateIndex(o + t);
    merged, conflicts := MergeIndexes(gb, go, gt);
    assert Elements(o + t) == Elements(o) + Elements(t);
    RepositoryOrders();
    NamesApart(Elements(o + t));
    MergeIsRegenerate(MakeRepoCompare, ByFileName, Elements(b), Elements(o), Elements(t), gb, go, gt,
                      regenerated, merged, conflicts);
  }
}
