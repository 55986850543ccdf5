/** What the merge driver promises about the index it writes, whatever the three
    indexes it starts from. */
module MergeLaws {
  import opened Options
  import opened VersionOrder
  import opened Versions
  import opened Sorting
  import opened IndexMerge
  import opened MergeRegenerate

  /** The stanza of a package survives the merge. */
  ghost predicate Lists(ordered: seq<Stanza>, p: string) {
    exists i :: 0 <= i < |ordered| && ordered[i].package == p
  }

  /** What is listed for a package is what was decided for it. */
  lemma ListedIsChosen(vcmp: VersionCmp, ncmp: NameCmp, base: map<string, Stanza>, ours: map<string, Stanza>,
                       theirs: map<string, Stanza>,
                       ordered: seq<Stanza>, conflicts: seq<string>, p: string)
    requires WellKeyed(ours) && WellKeyed(theirs) && Merged(vcmp, ncmp, base, ours, theirs, ordered, conflicts)
    ensures var c := ChooseFor(vcmp, base, ours, theirs, p);
            && (Lists(ordered, p) <==> !c.Drop?)
            && (!c.Drop? ==> c.stanza in ordered && c.stanza.package == p && (p in ours || p in theirs))
            && forall s :: s in ordered && s.package == p ==> !c.Drop? && s == c.stanza
  {
    ChoiceOfPackage(vcmp, base, ours, theirs, p);
    var c := ChooseFor(vcmp, base, ours, theirs, p);
    if Lists(ordered, p) {
      var i :| 0 <= i < |ordered| && ordered[i].package == p;
      assert ordered[i] in ordered;
    }
  }

  /** Nothing is invented: every listed stanza is one of the two sides'. */
  lemma FromASide(vcmp: VersionCmp, ncmp: NameCmp, base: map<string, Stanza>, ours: map<string, Stanza>,
                  theirs: map<string, Stanza>,
                  ordered: seq<Stanza>, conflicts: seq<string>, s: Stanza)
    requires Merged(vcmp, ncmp, base, ours, theirs, ordered, conflicts) && s in ordered
    ensures Get(ours, s.package) == Some(s) || Get(theirs, s.package) == Some(s)
  {
  }

  /** A package on both sides has exactly one stanza in the merged index, one of the
      two, at a version at least as new as both. */
  lemma NeverOlder(vcmp: VersionCmp, ncmp: NameCmp, base: map<string, Stanza>, ours: map<string, Stanza>,
                   theirs: map<string, Stanza>,
                   ordered: seq<Stanza>, conflicts: seq<string>, p: string)
    requires TotalPreorder(vcmp) && WellKeyed(ours) && WellKeyed(theirs)
    requires Merged(vcmp, ncmp, base, ours, theirs, ordered, conflicts) && p in ours && p in theirs
    ensures exists i :: 0 <= i < |ordered| && ordered[i].package == p && ordered[i] in {ours[p], theirs[p]}
                        && vcmp(ordered[i].version, ours[p].version) >= 0 && vcmp(ordered[i].version, theirs[p].version) >= 0
                        && forall j :: 0 <= j < |ordered| && ordered[j].package == p ==> j == i
  {
    ListedIsChosen(vcmp, ncmp, base, ours, theirs, ordered, conflicts, p);
    VersionNeverDrops(vcmp, Get(base, p), ours[p], theirs[p]);
    var i :| 0 <= i < |ordered| && ordered[i].package == p;
    assert ordered[i] in ordered;
  }

  /** A package on one side only is missing from the merged index exactly when that
      side has the ancestor's stanza, and is listed as that side has it otherwise; a
      package on neither side is missing. */
  lemma RetiredExactly(vcmp: VersionCmp, ncmp: NameCmp, base: map<string, Stanza>, ours: map<string, Stanza>,
                       theirs: map<string, Stanza>,
                       ordered: seq<Stanza>, conflicts: seq<string>, p: string)
    requires WellKeyed(ours) && WellKeyed(theirs) && Merged(vcmp, ncmp, base, ours, theirs, ordered, conflicts)
    ensures p in ours && p !in theirs ==> if Get(base, p) == Some(ours[p]) then !Lists(ordered, p) else ours[p] in ordered
    ensures p in theirs && p !in ours ==>
            if Get(base, p) == Some(theirs[p]) then !Lists(ordered, p) else theirs[p] in ordered
    ensures p !in ours && p !in theirs ==> !Lists(ordered, p)
  {
    ListedIsChosen(vcmp, ncmp, base, ours, theirs, ordered, conflicts, p);
  }

  /** The packages left to a human are exactly those that both sides publish at one
      version with different payloads. */
  lemma ConflictsExactly(vcmp: VersionCmp, ncmp: NameCmp, base: map<string, Stanza>, ours: map<string, Stanza>,
                         theirs: map<string, Stanza>,
                         ordered: seq<Stanza>, conflicts: seq<string>, p: string)
    requires Merged(vcmp, ncmp, base, ours, theirs, ordered, conflicts)
    ensures p in conflicts <==>
            p in ours && p in theirs && vcmp(ours[p].version, theirs[p].version) == 0 && ours[p].sha != theirs[p].sha
  {
    ConflictExactly(vcmp, Get(base, p), Get(ours, p), Get(theirs, p));
  }

  /** A package on both sides is listed once: as the side with the newer version has it;
      at one version with one payload, as the side has it that edited the stanza, which
      is ours unless only theirs differs from the ancestor; in a conflict as ours. */
  lemma BothSidesExactly(vcmp: VersionCmp, ncmp: NameCmp, base: map<string, Stanza>, ours: map<string, Stanza>,
                         theirs: map<string, Stanza>,
                         ordered: seq<Stanza>, conflicts: seq<string>, s: Stanza)
    requires WellKeyed(ours) && WellKeyed(theirs) && Merged(vcmp, ncmp, base, ours, theirs, ordered, conflicts)
    requires s.package in ours && s.package in theirs
    ensures var p := s.package;
            var c := vcmp(ours[p].version, theirs[p].version);
            s in ordered <==>
            s == if c < 0 then theirs[p]
                 else if c > 0 then ours[p]
                 else if ours[p].sha == theirs[p].sha && p in base && base[p] == ours[p] then theirs[p]
                 else ours[p]
  {
    ListedIsChosen(vcmp, ncmp, base, ours, theirs, ordered, conflicts, s.package);
  }

  /** Of several stanzas of a package in one index file, the last one is read. */
  lemma {:induction false} LastStanzaRead(index: seq<Stanza>, i: nat)
    requires i < |index| && forall j :: i < j < |index| ==> index[j].package != index[i].package
    ensures index[i].package in Parse(index) && Parse(index)[index[i].package] == index[i]
  {
    if i < |index| - 1 {
      LastStanzaRead(index[..|index| - 1], i);
    }
  }

  // ---- swapping the sides ----------------------------------------------------------------------------------

  /** Merging in one direction and in the other. */
  ghost predicate BothWays(vcmp: VersionCmp, ncmp: NameCmp, base: map<string, Stanza>, ours: map<string, Stanza>,
                           theirs: map<string, Stanza>,
                           a: seq<Stanza>, ca: seq<string>, b: seq<Stanza>, cb: seq<string>) {
    && WellKeyed(ours) && WellKeyed(theirs)
    && Merged(vcmp, ncmp, base, ours, theirs, a, ca) && Merged(vcmp, ncmp, base, theirs, ours, b, cb)
  }

  ghost predicate EditedTwice(vcmp: VersionCmp, base: map<string, Stanza>, ours: map<string, Stanza>,
                              theirs: map<string, Stanza>, p: string) {
    BothEdited(vcmp, Get(base, p), Get(ours, p), Get(theirs, p))
  }

  /** A package whose stanza both sides edited is listed differently. */
  lemma EditedDiffers(vcmp: VersionCmp, ncmp: NameCmp, base: map<string, Stanza>, ours: map<string, Stanza>,
                      theirs: map<string, Stanza>,
                      a: seq<Stanza>, ca: seq<string>, b: seq<Stanza>, cb: seq<string>, p: string)
    requires TotalPreorder(vcmp) && BothWays(vcmp, ncmp, base, ours, theirs, a, ca, b, cb)
    requires EditedTwice(vcmp, base, ours, theirs, p)
    ensures a != b
  {
    ListedIsChosen(vcmp, ncmp, base, ours, theirs, a, ca, p);
    ListedIsChosen(vcmp, ncmp, base, theirs, ours, b, cb, p);
    SidesAlike(vcmp, Get(base, p), Get(ours, p), Get(theirs, p));
    var c := ChooseFor(vcmp, base, ours, theirs, p);
    assert c.stanza !in b;
  }

  /** Without conflicts and twice-edited packages, both ways list the same stanzas. */
  lemma SameStanza(vcmp: VersionCmp, ncmp: NameCmp, base: map<string, Stanza>, ours: map<string, Stanza>,
                   theirs: map<string, Stanza>,
                   a: seq<Stanza>, ca: seq<string>, b: seq<Stanza>, cb: seq<string>, s: Stanza)
    requires TotalPreorder(vcmp) && BothWays(vcmp, ncmp, base, ours, theirs, a, ca, b, cb) && ca == []
    requires !EditedTwice(vcmp, base, ours, theirs, s.package)
    ensures s in a <==> s in b
  {
    var p := s.package;
    SidesAlike(vcmp, Get(base, p), Get(ours, p), Get(theirs, p));
    assert p !in ca;
  }

  /** Names that tie only within a package make the listing strict. */
  lemma StrictListing(vcmp: VersionCmp, ncmp: NameCmp, base: map<string, Stanza>, ours: map<string, Stanza>,
                      theirs: map<string, Stanza>,
                      a: seq<Stanza>, ca: seq<string>)
    requires Merged(vcmp, ncmp, base, ours, theirs, a, ca) && NoNameTies(ncmp, ours.Values + theirs.Values)
    ensures StrictlySortedBy(ncmp, a)
  {
    forall s | s in a
      ensures s in ours.Values + theirs.Values
    {
      FromASide(vcmp, ncmp, base, ours, theirs, a, ca, s);
    }
    StrictNames(ncmp, ours.Values + theirs.Values, a);
  }

  /** Without conflicts the driver writes the same index whichever side is called
      ours, exactly if no package's stanza was edited on both sides. */
  lemma SwapExactly(vcmp: VersionCmp, ncmp: NameCmp, base: map<string, Stanza>, ours: map<string, Stanza>,
                    theirs: map<string, Stanza>,
                    a: seq<Stanza>, ca: seq<string>, b: seq<Stanza>, cb: seq<string>)
    requires TotalPreorder(vcmp) && TotalPreorder(ncmp) && BothWays(vcmp, ncmp, base, ours, theirs, a, ca, b, cb)
    requires NoNameTies(ncmp, ours.Values + theirs.Values)
    ensures forall p :: p in ca <==> p in cb
    ensures ca == [] ==> (a == b <==> forall p :: !EditedTwice(vcmp, base, ours, theirs, p))
  {
    forall p ensures p in ca <==> p in cb {
      SidesAlike(vcmp, Get(base, p), Get(ours, p), Get(theirs, p));
    }
    if p :| EditedTwice(vcmp, base, ours, theirs, p) {
      EditedDiffers(vcmp, ncmp, base, ours, theirs, a, ca, b, cb, p);
    } else if ca == [] {
      forall s ensures s in a <==> s in b {
        SameStanza(vcmp, ncmp, base, ours, theirs, a, ca, b, cb, s);
      }
      StrictListing(vcmp, ncmp, base, ours, theirs, a, ca);
      assert theirs.Values + ours.Values == ours.Values + theirs.Values;
      StrictListing(vcmp, ncmp, base, theirs, ours, b, cb);
      ListingUnique(ncmp, a, b);
    }
  }

  /** The driver run with the sides either way. */
  method MergeBothWays(vcmp: VersionCmp, ncmp: NameCmp, base: map<string, Stanza>, ours: map<string, Stanza>,
                       theirs: map<string, Stanza>)
    returns (a: seq<Stanza>, b: seq<Stanza>, conflicts: seq<string>)
    requires TotalPreorder(vcmp) && TotalPreorder(ncmp) && WellKeyed(ours) && WellKeyed(theirs)
    requires NoNameTies(ncmp, ours.Values + theirs.Values)
    ensures forall p :: p in conflicts <==> ChooseFor(vcmp, base, ours, theirs, p).Conflict?
    ensures conflicts == [] ==> (a == b <==> forall p :: !EditedTwice(vcmp, base, ours, theirs, p))
  {
    var swapped;
    a, conflicts := Merge(vcmp, ncmp, base, ours, theirs);
    b, swapped := Merge(vcmp, ncmp, base, theirs, ours);
    SwapExactly(vcmp, ncmp, base, ours, theirs, a, conflicts, b, swapped);
  }

  /** With the repository's own orders, under which only names of one package tie. */
  method MergeIndexesBothWays(base: map<string, Stanza>, ours: map<string, Stanza>, theirs: map<string, Stanza>)
    returns (a: seq<Stanza>, b: seq<Stanza>, conflicts: seq<string>)
    requires WellKeyed(ours) && WellKeyed(theirs) && NamedAfterPackage(ours.Values + theirs.Values)
    ensures conflicts == [] ==> (a == b <==> forall p :: !EditedTwice(MakeRepoCompare, base, ours, theirs, p))
  {
    RepositoryOrders();
    NamesApart(ours.Values + theirs.Values);
    a, b, conflicts := MergeBothWays(MakeRepoCompare, ByFileName, base, ours, theirs);
  }
}
