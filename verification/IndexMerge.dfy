/** The APT index as an algebra over any version order: generating it from a pool
    of packages, and the three-way merge of two generated indexes. */
module IndexMerge {
  import opened Options
  import opened VersionOrder
  import opened Sorting

  /** One index stanza; two stanzas are equal exactly when their texts are. */
  datatype Stanza = Stanza(package: string, version: string, filename: string, sha: string, rest: string)

  type VersionCmp = (string, string) -> int
  type NameCmp = (Stanza, Stanza) -> int

  ghost function Elements<T>(xs: seq<T>): set<T> { set x | x in xs }

  /** The newest deb of its package in a pool. */
  ghost predicate Newest(vcmp: VersionCmp, pool: set<Stanza>, s: Stanza) {
    s in pool && forall t :: t in pool && t.package == s.package ==> vcmp(s.version, t.version) >= 0
  }

  /** Distinct debs of one package never compare version-equal. */
  ghost predicate NoVersionTies(vcmp: VersionCmp, pool: set<Stanza>) {
    forall s, t :: s in pool && t in pool && s != t && s.package == t.package ==> vcmp(s.version, t.version) != 0
  }

  /** File names of different packages never tie. */
  ghost predicate NoNameTies(ncmp: NameCmp, pool: set<Stanza>) {
    forall s, t :: s in pool && t in pool && s.package != t.package ==> ncmp(s, t) != 0
  }

  ghost predicate DistinctPackages(index: seq<Stanza>) {
    forall i, j :: 0 <= i < j < |index| ==> index[i].package != index[j].package
  }

  ghost predicate Mentions(index: seq<Stanza>, p: string) {
    exists i :: 0 <= i < |index| && index[i].package == p
  }

  // ---- generating the index from a pool -----------------------------------------------------

  /** `latest` points, for every package of the prefix, at a newest deb of it. */
  ghost predicate LatestOf(vcmp: VersionCmp, pkgs: seq<Stanza>, n: nat, latest: map<string, nat>)
    requires n <= |pkgs|
  {
    && (forall k :: 0 <= k < n ==> pkgs[k].package in latest)
    && (forall p :: p in latest ==> latest[p] < n && pkgs[latest[p]].package == p)
    && (forall k :: 0 <= k < n ==> vcmp(pkgs[latest[pkgs[k].package]].version, pkgs[k].version) >= 0)
  }

  lemma LatestStep(vcmp: VersionCmp, pkgs: seq<Stanza>, n: nat, latest: map<string, nat>, latest': map<string, nat>)
    requires TotalPreorder(vcmp)
    requires n < |pkgs| && LatestOf(vcmp, pkgs, n, latest)
    requires var p := pkgs[n].package;
             latest' == if p !in latest || vcmp(pkgs[n].version, pkgs[latest[p]].version) > 0
                        then latest[p := n] else latest
    ensures LatestOf(vcmp, pkgs, n + 1, latest')
  {
    var q := pkgs[n].package;
    forall k | 0 <= k < n + 1 ensures vcmp(pkgs[latest'[pkgs[k].package]].version, pkgs[k].version) >= 0 {
      if k == n {
        assert vcmp(pkgs[n].version, pkgs[n].version) == 0;
        if q in latest {
          assert vcmp(pkgs[n].version, pkgs[latest[q]].version) == -vcmp(pkgs[latest[q]].version, pkgs[n].version);
        }
      } else if pkgs[k].package == q && latest'[q] == n {
        AtLeast(vcmp, pkgs[n].version, pkgs[latest[q]].version, pkgs[k].version);
      }
    }
  }

  lemma AtLeast(vcmp: VersionCmp, a: string, b: string, c: string)
    requires TotalPreorder(vcmp) && vcmp(a, b) >= 0 && vcmp(b, c) >= 0
    ensures vcmp(a, c) >= 0
  {
    assert vcmp(b, a) <= 0 && vcmp(c, b) <= 0;
    assert vcmp(c, a) <= 0;
    assert vcmp(a, c) == -vcmp(c, a);
  }

  /** What a generated index is: sorted by file name, one newest deb per package. */
  ghost predicate Generated(vcmp: VersionCmp, ncmp: NameCmp, files: set<Stanza>, index: seq<Stanza>) {
    && SortedBy(ncmp, index)
    && DistinctPackages(index)
    && (forall i :: 0 <= i < |index| ==> Newest(vcmp, files, index[i]))
    && (forall t :: t in files ==> Mentions(index, t.package))
  }

  /** The generator: order the debs by file name, keep the newest of each package. */
  method Generate(vcmp: VersionCmp, ncmp: NameCmp, files: seq<Stanza>) returns (index: seq<Stanza>)
    requires TotalPreorder(vcmp) && TotalPreorder(ncmp)
    ensures Generated(vcmp, ncmp, Elements(files), index)
  {
    SortCorrect(ncmp, files);
    var pkgs := Sort(ncmp, files);
    assert Elements(pkgs) == Elements(files);
    var latest := FindLatest(vcmp, pkgs);
    index := KeepLatest(vcmp, ncmp, pkgs, latest);
  }

  method FindLatest(vcmp: VersionCmp, pkgs: seq<Stanza>) returns (latest: map<string, nat>)
    requires TotalPreorder(vcmp)
    ensures LatestOf(vcmp, pkgs, |pkgs|, latest)
  {
    latest := map[];
    var i := 0;
    while i < |pkgs|
      invariant 0 <= i <= |pkgs|
      invariant LatestOf(vcmp, pkgs, i, latest)
    {
      ghost var was := latest;
      var p := pkgs[i].package;
      if p !in latest || vcmp(pkgs[i].version, pkgs[latest[p]].version) > 0 {
        latest := latest[p := i];
      }
      LatestStep(vcmp, pkgs, i, was, latest);
      i := i + 1;
    }
  }

  /** Filter by the chosen indices, in order. */
  method KeepLatest(vcmp: VersionCmp, ncmp: NameCmp, pkgs: seq<Stanza>, latest: map<string, nat>)
    returns (index: seq<Stanza>)
    requires LatestOf(vcmp, pkgs, |pkgs|, latest) && SortedBy(ncmp, pkgs)
    ensures Generated(vcmp, ncmp, Elements(pkgs), index)
  {
    index := [];
    ghost var at: seq<nat> := [];
    var i := 0;
    while i < |pkgs|
      invariant 0 <= i <= |pkgs|
      invariant Picked(pkgs, latest, i, at, index)
    {
      PickedStep(vcmp, pkgs, latest, i, at, index);
      if latest[pkgs[i].package] == i {
        index := index + [pkgs[i]];
        at := at + [i];
      }
      i := i + 1;
    }
    PickedIsGenerated(vcmp, ncmp, pkgs, latest, at, index);
  }

  /** `index` is the debs at the positions `at`: those `latest` points at. */
  ghost predicate Picked(pkgs: seq<Stanza>, latest: map<string, nat>, n: nat, at: seq<nat>, index: seq<Stanza>)
    requires n <= |pkgs|
  {
    && |at| == |index|
    && (forall k :: 0 <= k < |at| ==> at[k] < n && index[k] == pkgs[at[k]])
    && (forall k :: 0 <= k < |at| ==> index[k].package in latest && latest[index[k].package] == at[k])
    && (forall j, k :: 0 <= j < k < |at| ==> at[j] < at[k])
    && (forall p :: p in latest && latest[p] < n && pkgs[latest[p]].package == p ==> latest[p] in at)
  }

  lemma PickedStep(vcmp: VersionCmp, pkgs: seq<Stanza>, latest: map<string, nat>, i: nat, at: seq<nat>,
                   index: seq<Stanza>)
    requires LatestOf(vcmp, pkgs, |pkgs|, latest) && i < |pkgs| && Picked(pkgs, latest, i, at, index)
    ensures pkgs[i].package in latest
    ensures if latest[pkgs[i].package] == i then Picked(pkgs, latest, i + 1, at + [i], index + [pkgs[i]])
            else Picked(pkgs, latest, i + 1, at, index)
  {
  }

  lemma PickedIsGenerated(vcmp: VersionCmp, ncmp: NameCmp, pkgs: seq<Stanza>, latest: map<string, nat>,
                          at: seq<nat>, index: seq<Stanza>)
    requires LatestOf(vcmp, pkgs, |pkgs|, latest) && SortedBy(ncmp, pkgs)
    requires Picked(pkgs, latest, |pkgs|, at, index)
    ensures Generated(vcmp, ncmp, Elements(pkgs), index)
  {
    forall t | t in Elements(pkgs) ensures Mentions(index, t.package) {
      var k :| 0 <= k < |pkgs| && pkgs[k] == t;
      var l :| 0 <= l < |at| && at[l] == latest[t.package];
      assert index[l].package == t.package;
    }
    forall i | 0 <= i < |index| ensures Newest(vcmp, Elements(pkgs), index[i]) {
      var s := index[i];
      forall t | t in Elements(pkgs) && t.package == s.package ensures vcmp(s.version, t.version) >= 0 {
        var l :| 0 <= l < |pkgs| && pkgs[l] == t;
      }
    }
  }

  // ---- merging three indexes ----------------------------------------------------------------

  /** Read an index file; a later stanza of a package replaces an earlier one. */
  function Parse(index: seq<Stanza>): (m: map<string, Stanza>)
    ensures forall p :: p in m ==> m[p].package == p && m[p] in index
    ensures forall i :: 0 <= i < |index| ==> index[i].package in m
  {
    if index == [] then map[]
    else
      var last := index[|index| - 1];
      Parse(index[..|index| - 1])[last.package := last]
  }

  /** What the driver does with one package. */
  datatype Choice = Drop | Keep(stanza: Stanza) | Conflict(stanza: Stanza)

  function Get(m: map<string, Stanza>, p: string): Option<Stanza> {
    if p in m then Some(m[p]) else None
  }

  function Choose(vcmp: VersionCmp, base: Option<Stanza>, mine: Option<Stanza>, other: Option<Stanza>): Choice {
    match (mine, other)
    case (Some(m), None) => if base == Some(m) then Drop else Keep(m)
    case (None, Some(o)) => if base == Some(o) then Drop else Keep(o)
    case (None, None) => Drop
    case (Some(m), Some(o)) =>
      if m == o then Keep(m)
      else
        var c := vcmp(m.version, o.version);
        if c > 0 then Keep(m)
        else if c < 0 then Keep(o)
        else if m.sha == o.sha then (if base == Some(m) then Keep(o) else Keep(m))
        else Conflict(m)
  }

  /** The driver's decision for a package of either side. */
  function ChooseFor(vcmp: VersionCmp, base: map<string, Stanza>, ours: map<string, Stanza>,
                     theirs: map<string, Stanza>, p: string): Choice {
    Choose(vcmp, Get(base, p), Get(ours, p), Get(theirs, p))
  }

  ghost predicate WellKeyed(m: map<string, Stanza>) {
    forall p :: p in m ==> m[p].package == p
  }

  /** What a merge produces: the kept stanzas, once each, in file name order, and
      the packages both sides publish differently under one version. */
  ghost predicate Merged(vcmp: VersionCmp, ncmp: NameCmp, base: map<string, Stanza>, ours: map<string, Stanza>,
                         theirs: map<string, Stanza>, ordered: seq<Stanza>, conflicts: seq<string>) {
    && SortedBy(ncmp, ordered)
    && (forall s :: s in ordered <==>
                    (s.package in ours || s.package in theirs) &&
                    var c := ChooseFor(vcmp, base, ours, theirs, s.package); !c.Drop? && c.stanza == s)
    && (forall p :: p in conflicts <==> ChooseFor(vcmp, base, ours, theirs, p).Conflict?)
    && DistinctPackages(ordered)
  }

  /** A set of names in code-point order. */
  method SortedKeys(keys: set<string>) returns (ks: seq<string>)
    ensures forall k :: k in ks <==> k in keys
    ensures forall i, j :: 0 <= i < j < |ks| ==> ks[i] != ks[j]
    ensures SortedBy(StrCmp, ks)
  {
    var todo, found := keys, [];
    while todo != {}
      invariant todo <= keys
      invariant forall k :: k in found <==> k in keys - todo
      invariant forall i, j :: 0 <= i < j < |found| ==> found[i] != found[j]
      decreases todo
    {
      var k :| k in todo;
      assert forall x :: x in found + [k] <==> x in found || x == k;
      found := found + [k];
      todo := todo - {k};
    }
    StrCmpPreorder();
    SortCorrect(StrCmp, found);
    ks := Sort(StrCmp, found);
    DistinctKept(found, ks);
  }

  lemma DistinctKept(xs: seq<string>, ys: seq<string>)
    requires multiset(xs) == multiset(ys) && forall i, j :: 0 <= i < j < |xs| ==> xs[i] != xs[j]
    ensures forall i, j :: 0 <= i < j < |ys| ==> ys[i] != ys[j]
  {
    forall i, j | 0 <= i < j < |ys| ensures ys[i] != ys[j] {
      OnceEach(xs, ys[i]);
      TwiceIf(ys, i, j);
    }
  }

  lemma {:induction false} OnceEach<T>(xs: seq<T>, x: T)
    requires forall i, j :: 0 <= i < j < |xs| ==> xs[i] != xs[j]
    ensures multiset(xs)[x] <= 1
  {
    if xs != [] {
      var n := |xs| - 1;
      OnceEach(xs[..n], x);
      assert xs == xs[..n] + [xs[n]];
      if xs[n] == x {
        assert x !in xs[..n];
      }
    }
  }

  lemma TwiceIf<T>(ys: seq<T>, i: nat, j: nat)
    requires i < j < |ys|
    ensures ys[i] == ys[j] ==> multiset(ys)[ys[i]] >= 2
  {
    assert ys == ys[..j] + [ys[j]] + ys[j + 1..];
    assert ys[i] in ys[..j];
  }

  /** The merge driver. */
  method Merge(vcmp: VersionCmp, ncmp: NameCmp, base: map<string, Stanza>, ours: map<string, Stanza>,
               theirs: map<string, Stanza>)
    returns (ordered: seq<Stanza>, conflicts: seq<string>)
    requires TotalPreorder(ncmp) && WellKeyed(ours) && WellKeyed(theirs)
    ensures Merged(vcmp, ncmp, base, ours, theirs, ordered, conflicts)
  {
    var keys := SortedKeys(ours.Keys + theirs.Keys);
    var merged: seq<Stanza> := [];
    conflicts := [];
    var i := 0;
    while i < |keys|
      invariant 0 <= i <= |keys|
      invariant MergedUpTo(vcmp, base, ours, theirs, keys, i, merged, conflicts)
    {
      var p := keys[i];
      ghost var wasMerged, wasConflicts := merged, conflicts;
      match ChooseFor(vcmp, base, ours, theirs, p) {
        case Drop =>
        case Keep(s) =>
          merged := merged + [s];
        case Conflict(s) =>
          conflicts := conflicts + [p];
          merged := merged + [s];
      }
      MergeStep(vcmp, base, ours, theirs, keys, i, wasMerged, wasConflicts, merged, conflicts);
      i := i + 1;
    }
    SortCorrect(ncmp, merged);
    ordered := Sort(ncmp, merged);
    MergeDone(vcmp, ncmp, base, ours, theirs, keys, merged, ordered, conflicts);
  }

  ghost predicate MergedUpTo(vcmp: VersionCmp, base: map<string, Stanza>, ours: map<string, Stanza>,
                             theirs: map<string, Stanza>,
                             keys: seq<string>, n: nat, merged: seq<Stanza>, conflicts: seq<string>)
    requires n <= |keys|
  {
    && (forall s :: s in merged <==>
                    s.package in keys[..n] &&
                    var c := ChooseFor(vcmp, base, ours, theirs, s.package); !c.Drop? && c.stanza == s)
    && (forall p :: p in conflicts <==> p in keys[..n] && ChooseFor(vcmp, base, ours, theirs, p).Conflict?)
    && DistinctPackages(merged)
  }

  lemma ChoiceOfPackage(vcmp: VersionCmp, base: map<string, Stanza>, ours: map<string, Stanza>,
                        theirs: map<string, Stanza>, p: string)
    requires WellKeyed(ours) && WellKeyed(theirs)
    ensures var c := ChooseFor(vcmp, base, ours, theirs, p);
            !c.Drop? ==> c.stanza.package == p && (p in ours || p in theirs)
  {
  }

  lemma MergeStep(vcmp: VersionCmp, base: map<string, Stanza>, ours: map<string, Stanza>, theirs: map<string, Stanza>,
                  keys: seq<string>, n: nat, merged: seq<Stanza>, conflicts: seq<string>,
                  merged': seq<Stanza>, conflicts': seq<string>)
    requires n < |keys| && (forall i, j :: 0 <= i < j < |keys| ==> keys[i] != keys[j])
    requires WellKeyed(ours) && WellKeyed(theirs)
    requires MergedUpTo(vcmp, base, ours, theirs, keys, n, merged, conflicts)
    requires var c := ChooseFor(vcmp, base, ours, theirs, keys[n]);
             && merged' == (if c.Drop? then merged else merged + [c.stanza])
             && conflicts' == (if c.Conflict? then conflicts + [keys[n]] else conflicts)
    ensures MergedUpTo(vcmp, base, ours, theirs, keys, n + 1, merged', conflicts')
  {
    var p := keys[n];
    var c := ChooseFor(vcmp, base, ours, theirs, p);
    assert keys[..n + 1] == keys[..n] + [p];
    assert p !in keys[..n];
    ChoiceOfPackage(vcmp, base, ours, theirs, p);
    forall i | 0 <= i < |merged| ensures merged[i].package != p {
      assert merged[i] in merged;
    }
  }

  lemma MergeDone(vcmp: VersionCmp, ncmp: NameCmp, base: map<string, Stanza>, ours: map<string, Stanza>,
                  theirs: map<string, Stanza>,
                  keys: seq<string>, merged: seq<Stanza>, ordered: seq<Stanza>, conflicts: seq<string>)
    requires WellKeyed(ours) && WellKeyed(theirs)
    requires forall k :: k in keys <==> k in ours.Keys + theirs.Keys
    requires MergedUpTo(vcmp, base, ours, theirs, keys, |keys|, merged, conflicts)
    requires SortedBy(ncmp, ordered) && multiset(ordered) == multiset(merged) && forall x :: x in ordered <==> x in merged
    ensures Merged(vcmp, ncmp, base, ours, theirs, ordered, conflicts)
  {
    assert keys[..|keys|] == keys;
    forall p ensures p in conflicts <==> ChooseFor(vcmp, base, ours, theirs, p).Conflict? {
      ChoiceOfPackage(vcmp, base, ours, theirs, p);
    }
    forall i, j | 0 <= i < j < |ordered| ensures ordered[i].package != ordered[j].package {
      if ordered[i].package == ordered[j].package {
        assert ordered[i] in merged && ordered[j] in merged;
        assert ordered[i] == ordered[j];
        TwiceIf(ordered, i, j);
        OnceEach(merged, ordered[i]);
      }
    }
  }
}
