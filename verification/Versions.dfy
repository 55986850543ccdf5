/** Whole Debian versions and package file names: the split into epoch, upstream
    and revision of each script, the comparisons built on it, and how the scripts
    agree. */
module Versions {
  import opened Options
  import opened VersionOrder
  import opened VersionPorts

  // ---- string helpers with Python's meaning (ASCII) -----------------------------------

  predicate IsSpace(c: char) {
    c == ' ' || ('\t' <= c <= '\r') || (28 <= c as int <= 31)
  }

  function LStrip(s: string): (t: string)
    ensures t == "" || !IsSpace(t[0])
  {
    if s != "" && IsSpace(s[0]) then LStrip(s[1..]) else s
  }

  function RStrip(s: string): (t: string)
    ensures t == "" || !IsSpace(t[|t| - 1])
    ensures t <= s
  {
    if s != "" && IsSpace(s[|s| - 1]) then RStrip(s[..|s| - 1]) else s
  }

  function Strip(s: string): string { RStrip(LStrip(s)) }

  function FirstIndex(s: string, c: char): (r: Option<nat>)
    ensures r.Some? ==> r.value < |s| && s[r.value] == c && forall k :: 0 <= k < r.value ==> s[k] != c
    ensures r.None? ==> c !in s
  {
    if s == "" then None
    else if s[0] == c then Some(0)
    else
      match FirstIndex(s[1..], c)
      case None => None
      case Some(k) => Some(k + 1)
  }

  function LastIndex(s: string, c: char): (r: Option<nat>)
    ensures r.Some? ==> r.value < |s| && s[r.value] == c && forall k :: r.value < k < |s| ==> s[k] != c
    ensures r.None? ==> c !in s
  {
    if s == "" then None
    else if s[|s| - 1] == c then Some(|s| - 1)
    else LastIndex(s[..|s| - 1], c)
  }

  /** `str.isdigit` */
  predicate AllDigitsNonEmpty(s: string) {
    s != "" && forall k :: 0 <= k < |s| ==> IsDigit(s[k])
  }

  function KeepDigits(s: string): string {
    if s == "" then "" else KeepDigits(s[..|s| - 1]) + (if IsDigit(s[|s| - 1]) then [s[|s| - 1]] else "")
  }

  /** Digits with single underscores between them. */
  predicate PyDigits(s: string) {
    && s != "" && IsDigit(s[0]) && IsDigit(s[|s| - 1])
    && forall k :: 0 <= k < |s| ==> IsDigit(s[k]) || (s[k] == '_' && (k + 1 < |s| ==> s[k + 1] != '_'))
  }

  /** `int(str)`, or `None` where Python raises `ValueError`. */
  function PyInt(s: string): Option<int> {
    var t := Strip(s);
    if t != "" && (t[0] == '+' || t[0] == '-') then
      if !PyDigits(t[1..]) then None
      else if t[0] == '-' then Some(0 - Value(KeepDigits(t[1..])) as int) else Some(Value(KeepDigits(t[1..])))
    else if PyDigits(t) then Some(Value(KeepDigits(t)))
    else None
  }

  // ---- splitting -------------------------------------------------------------------------

  datatype Parts = Parts(epoch: int, upstream: string, revision: string)

  /** Upstream and revision around the last hyphen. */
  function SplitRevision(epoch: int, rest: string, missing: string): Parts {
    match LastIndex(rest, '-')
    case None => Parts(epoch, rest, missing)
    case Some(k) => Parts(epoch, rest[..k], rest[k + 1..])
  }

  /** make-repo and the sync tool: an unreadable epoch counts as 0. */
  function MakeRepoSplit(v: string): Parts {
    match FirstIndex(v, ':')
    case None => SplitRevision(0, v, "0")
    case Some(k) =>
      var epoch := match PyInt(v[..k]) case None => 0 case Some(e) => e;
      SplitRevision(epoch, v[k + 1..], "0")
  }

  /** check-repo-solvable: surrounding space is dropped, a head that is not all
      digits stays part of the version, a missing revision is empty. */
  function SolvableSplit(v: string): Parts {
    var t := Strip(v);
    match FirstIndex(t, ':')
    case Some(k) =>
      if AllDigitsNonEmpty(t[..k]) then SplitRevision(Value(t[..k]), t[k + 1..], "") else SplitRevision(0, t, "")
    case None => SplitRevision(0, t, "")
  }

  /** repo-foldin: an unreadable epoch is an error. */
  function FoldinSplit(v: string): Option<Parts> {
    match FirstIndex(v, ':')
    case None => Some(SplitRevision(0, v, "0"))
    case Some(k) =>
      match PyInt(v[..k])
      case None => None
      case Some(e) => Some(SplitRevision(e, v[k + 1..], "0"))
  }

  function CompareSplit(p: Parts, q: Parts): int {
    if p.epoch != q.epoch then Sign(p.epoch - q.epoch)
    else
      var c := CompareParts(p.upstream, q.upstream);
      if c != 0 then c else CompareParts(p.revision, q.revision)
  }

  function MakeRepoCompare(a: string, b: string): int {
    CompareSplit(MakeRepoSplit(a), MakeRepoSplit(b))
  }

  function SolvableCompare(a: string, b: string): int {
    CompareSplit(SolvableSplit(a), SolvableSplit(b))
  }

  function FoldinCompare(a: string, b: string): Option<int> {
    match (FoldinSplit(a), FoldinSplit(b))
    case (Some(p), Some(q)) => Some(CompareSplit(p, q))
    case _ => None
  }

  // ---- the scripts' entry points -------------------------------------------------------------

  /** `compare_deb_versions`, vendored branch; the sync tool's is the same. */
  method CompareDebVersions(a: string, b: string) returns (r: int)
    ensures r == MakeRepoCompare(a, b)
  {
    var p, q := MakeRepoSplit(a), MakeRepoSplit(b);
    if p.epoch != q.epoch {
      return if p.epoch < q.epoch then -1 else 1;
    }
    r := VerRevCmp(p.upstream, q.upstream);
    if r == 0 {
      r := VerRevCmp(p.revision, q.revision);
    }
  }

  method VersionCompare(v1: string, v2: string) returns (r: int)
    ensures Sign(r) == SolvableCompare(v1, v2)
  {
    var p, q := SolvableSplit(v1), SolvableSplit(v2);
    if p.epoch != q.epoch {
      return if p.epoch < q.epoch then -1 else 1;
    }
    r := SolvableVerRevCmp(p.upstream, q.upstream);
    if r == 0 {
      r := SolvableVerRevCmp(p.revision, q.revision);
    }
  }

  method DebCmp(a: string, b: string) returns (r: Option<int>)
    ensures r == FoldinCompare(a, b)
  {
    var p, q := FoldinSplit(a), FoldinSplit(b);
    if p.None? || q.None? {
      return None;
    }
    if p.value.epoch != q.value.epoch {
      return Some(if p.value.epoch < q.value.epoch then -1 else 1);
    }
    var c := FoldinVerRevCmp(p.value.upstream, q.value.upstream);
    if c == 0 {
      c := FoldinVerRevCmp(p.value.revision, q.value.revision);
    }
    return Some(c);
  }

  // ---- the order -------------------------------------------------------------------------------

  function CompareEpoch(p: Parts, q: Parts): int { Sign(p.epoch - q.epoch) }

  function CompareUpstream(p: Parts, q: Parts): int { LexPad(Key(p.upstream), Key(q.upstream)) }

  function CompareRevision(p: Parts, q: Parts): int { LexPad(Key(p.revision), Key(q.revision)) }

  function CompareRest(p: Parts, q: Parts): int {
    if CompareUpstream(p, q) != 0 then CompareUpstream(p, q) else CompareRevision(p, q)
  }

  lemma SplitPreorder()
    ensures TotalPreorder(CompareSplit)
  {
    LexPadPreorder();
    Pullback((p: Parts) => Key(p.upstream), LexPad, CompareUpstream);
    Pullback((p: Parts) => Key(p.revision), LexPad, CompareRevision);
    Refine(CompareUpstream, CompareRevision, CompareRest);
    assert TotalPreorder(CompareEpoch);
    Refine(CompareEpoch, CompareRest, CompareSplit);
  }

  /** The vendored version comparison is a total preorder on all strings, and so
      is check-repo-solvable's. */
  lemma VersionPreorder()
    ensures TotalPreorder(MakeRepoCompare)
    ensures TotalPreorder(SolvableCompare)
  {
    SplitPreorder();
    Pullback(MakeRepoSplit, CompareSplit, MakeRepoCompare);
    Pullback(SolvableSplit, CompareSplit, SolvableCompare);
  }

  // ---- agreement ----------------------------------------------------------------------------------

  /** No colon, or a non-empty all-digit epoch before the first one. */
  predicate GoodEpoch(v: string) {
    match FirstIndex(v, ':')
    case None => true
    case Some(k) => AllDigitsNonEmpty(v[..k])
  }

  lemma {:induction false} KeepAllDigits(s: string)
    requires forall k :: 0 <= k < |s| ==> IsDigit(s[k])
    ensures KeepDigits(s) == s
  {
    if s != "" {
      KeepAllDigits(s[..|s| - 1]);
      assert s == s[..|s| - 1] + [s[|s| - 1]];
    }
  }

  lemma DigitsAreInt(s: string)
    requires AllDigitsNonEmpty(s)
    ensures PyInt(s) == Some(Value(s))
  {
    assert IsDigit(s[0]) && IsDigit(s[|s| - 1]);
    assert LStrip(s) == s && RStrip(s) == s;
    KeepAllDigits(s);
  }

  /** A revision that is missing compares like the revision 0. */
  lemma MissingRevision(r: string)
    ensures CompareParts("0", r) == CompareParts("", r) && CompareParts(r, "0") == CompareParts(r, "")
  {
    assert DigitRun("0") == 1 by { DigitRunIs("0", 1); }
    assert "0"[..1] == "0" && "0"[1..] == "";
    assert Value("0") == 0 by { assert "0"[..0] == ""; }
    assert Key("0") == [0, 0];
    PadZeros(Key(r));
  }

  /** Which filler a script uses for a missing revision does not matter. */
  lemma FillerIrrelevant(e: int, u: string, f: int, w: string)
    ensures CompareSplit(SplitRevision(e, u, ""), SplitRevision(f, w, "")) ==
            CompareSplit(SplitRevision(e, u, "0"), SplitRevision(f, w, "0"))
  {
    var p, q := SplitRevision(e, u, ""), SplitRevision(f, w, "");
    MissingRevision(q.revision);
    MissingRevision("0");
    MissingRevision(SplitRevision(e, u, "0").revision);
  }

  /** With readable epochs, repo-foldin never fails and agrees with make-repo. */
  lemma FoldinAgrees(a: string, b: string)
    requires GoodEpoch(a) && GoodEpoch(b)
    ensures FoldinCompare(a, b) == Some(MakeRepoCompare(a, b))
  {
    GoodEpochSplit(a);
    GoodEpochSplit(b);
  }

  lemma GoodEpochSplit(v: string)
    requires GoodEpoch(v)
    ensures FoldinSplit(v) == Some(MakeRepoSplit(v))
  {
    match FirstIndex(v, ':')
    case None =>
    case Some(k) => DigitsAreInt(v[..k]);
  }

  /** check-repo-solvable decides as make-repo does on the stripped versions, so
      the two agree wherever stripping changes nothing. */
  lemma SolvableAgrees(a: string, b: string)
    requires GoodEpoch(Strip(a)) && GoodEpoch(Strip(b))
    ensures SolvableCompare(a, b) == MakeRepoCompare(Strip(a), Strip(b))
  {
    var e, u := SolvableForm(a);
    var f, w := SolvableForm(b);
    FillerIrrelevant(e, u, f, w);
  }

  lemma SolvableForm(a: string) returns (e: int, u: string)
    requires GoodEpoch(Strip(a))
    ensures SolvableSplit(a) == SplitRevision(e, u, "") && MakeRepoSplit(Strip(a)) == SplitRevision(e, u, "0")
  {
    var t := Strip(a);
    match FirstIndex(t, ':')
    case None =>
      e, u := 0, t;
    case Some(k) =>
      DigitsAreInt(t[..k]);
      e, u := Value(t[..k]), t[k + 1..];
  }

  /** A surrounding space does tell the scripts apart. */
  lemma SpaceDisagrees()
    ensures SolvableCompare(" 1", "1") == 0 && MakeRepoCompare(" 1", "1") == 1
  {
    assert LStrip(" 1") == "1" by { assert " 1"[1..] == "1"; }
    assert Strip(" 1") == "1" && Strip("1") == "1";
    var p, q := MakeRepoSplit(" 1"), MakeRepoSplit("1");
    NoChar(" 1", ':');
    NoChar("1", ':');
    NoChar(" 1", '-');
    NoChar("1", '-');
    assert p == Parts(0, " 1", "0") && q == Parts(0, "1", "0");
    KeyIsRunKey(" 1", "1");
    WeightsDiffer(" 1", "1");
    LexPadReflexive(Key("1"));
    LexPadReflexive(Key(""));
  }

  lemma NoChar(s: string, c: char)
    requires c !in s
    ensures FirstIndex(s, c).None? && LastIndex(s, c).None?
  {
  }

  // ---- dependency constraints ------------------------------------------------------------------------

  predicate ConstraintOk(have: string, op: string, want: string) {
    var c := SolvableCompare(have, want);
    if op == ">=" || op == ">" then c >= 0
    else if op == ">>" then c > 0
    else if op == "<=" || op == "<" then c <= 0
    else if op == "<<" then c < 0
    else if op == "=" then c == 0
    else true
  }

  /** The relations mean what they say: exactly one of earlier, equal, later;
      and satisfied bounds chain. */
  lemma ConstraintLaws(a: string, b: string, c: string)
    ensures ConstraintOk(a, ">=", b) <==> !ConstraintOk(a, "<<", b)
    ensures ConstraintOk(a, "<=", b) <==> !ConstraintOk(a, ">>", b)
    ensures ConstraintOk(a, "=", b) <==> ConstraintOk(a, ">=", b) && ConstraintOk(a, "<=", b)
    ensures ConstraintOk(a, ">=", b) <==> ConstraintOk(b, "<=", a)
    ensures ConstraintOk(a, ">=", b) && ConstraintOk(b, ">=", c) ==> ConstraintOk(a, ">=", c)
    ensures ConstraintOk(a, ">>", b) && ConstraintOk(b, ">=", c) ==> ConstraintOk(a, ">>", c)
    ensures ConstraintOk(a, "=", b) ==> (ConstraintOk(a, ">=", c) <==> ConstraintOk(b, ">=", c))
  {
    VersionPreorder();
    Laws(SolvableCompare, a, b, c);
  }

  lemma Laws<T(!new)>(cmp: (T, T) -> int, a: T, b: T, c: T)
    requires TotalPreorder(cmp)
    ensures cmp(a, b) == -cmp(b, a) && -1 <= cmp(a, b) <= 1
    ensures cmp(a, b) >= 0 && cmp(b, c) >= 0 ==> cmp(a, c) >= 0
    ensures cmp(a, b) > 0 && cmp(b, c) >= 0 ==> cmp(a, c) > 0
    ensures cmp(a, b) == 0 ==> cmp(a, c) == cmp(b, c)
  {
    assert cmp(b, c) == -cmp(c, b) && cmp(a, c) == -cmp(c, a);
    if cmp(a, b) == 0 {
      EqualsCompareAlike(cmp, a, b, c);
    }
    if cmp(a, b) > 0 && cmp(b, c) >= 0 && cmp(a, c) == 0 {
      Squeeze(cmp, c, b, a);
    }
  }

  // ---- package file names ------------------------------------------------------------------------------

  datatype FileName = FileName(package: string, version: string, arch: string)

  function Stem(fn: string): string {
    if |fn| >= 4 && fn[|fn| - 4..] == ".deb" then fn[..|fn| - 4] else fn
  }

  /** `name_version_arch.deb`; anything else is all package name. */
  function SplitFileName(fn: string): FileName {
    var stem := Stem(fn);
    match FirstIndex(stem, '_')
    case None => FileName(stem, "0", "")
    case Some(i) =>
      match FirstIndex(stem[i + 1..], '_')
      case None => FileName(stem, "0", "")
      case Some(j) => FileName(stem[..i], stem[i + 1..][..j], stem[i + 1..][j + 1..])
  }

  function ComparePackage(x: FileName, y: FileName): int { StrCmp(x.package, y.package) }

  function CompareVersion(x: FileName, y: FileName): int { MakeRepoCompare(x.version, y.version) }

  function CompareArch(x: FileName, y: FileName): int { StrCmp(x.arch, y.arch) }

  function CompareVersionArch(x: FileName, y: FileName): int {
    if CompareVersion(x, y) != 0 then CompareVersion(x, y) else CompareArch(x, y)
  }

  function CompareNames(x: FileName, y: FileName): int {
    if x.package != y.package then StrCmp(x.package, y.package)
    else
      var c := MakeRepoCompare(x.version, y.version);
      if c != 0 then c else if x.arch != y.arch then StrCmp(x.arch, y.arch) else 0
  }

  /** `compare_deb_filenames` */
  function CompareFileNames(a: string, b: string): int {
    CompareNames(SplitFileName(a), SplitFileName(b))
  }

  lemma NamesRefine(x: FileName, y: FileName)
    ensures CompareNames(x, y) == if ComparePackage(x, y) != 0 then ComparePackage(x, y) else CompareVersionArch(x, y)
  {
    StrCmpFacts(x.package, y.package);
    StrCmpFacts(x.arch, y.arch);
  }

  /** The file name comparison that orders the index is a total preorder too. */
  lemma FileNamePreorder()
    ensures TotalPreorder(CompareFileNames)
  {
    VersionPreorder();
    StrCmpPreorder();
    Pullback((x: FileName) => x.package, StrCmp, ComparePackage);
    Pullback((x: FileName) => x.arch, StrCmp, CompareArch);
    Pullback((x: FileName) => x.version, MakeRepoCompare, CompareVersion);
    Refine(CompareVersion, CompareArch, CompareVersionArch);
    forall x, y
      ensures CompareNames(x, y) == if ComparePackage(x, y) != 0 then ComparePackage(x, y) else CompareVersionArch(x, y)
    {
      NamesRefine(x, y);
    }
    Refine(ComparePackage, CompareVersionArch, CompareNames);
    Pullback(SplitFileName, CompareNames, CompareFileNames);
  }
}
