/** The version order in its own terms: which characters sort before which, what a
    suffix does, how numbers compare, and what that means for whole versions in each
    script.  Nothing here is stated with the weights and keys of `VersionOrder`. */
module VersionLaws {
  import opened Options
  import opened VersionOrder
  import opened VersionPorts
  import opened Versions

  /** The string does not go on with a digit. */
  predicate NoDigitFirst(s: string) {
    s == "" || !('0' <= s[0] <= '9')
  }

  predicate NonDigit(c: char) { !('0' <= c <= '9') }

  predicate Letter(c: char) { 'a' <= c <= 'z' || 'A' <= c <= 'Z' }

  predicate Digits(s: string) {
    s != "" && forall k :: 0 <= k < |s| ==> '0' <= s[k] <= '9'
  }

  // ---- one part ---------------------------------------------------------------------------

  lemma RunOfPrefix(w: string, a: string)
    requires NoDigitFirst(a)
    ensures DigitRun(w + a) == DigitRun(w)
  {
    var n, s := DigitRun(w), w + a;
    if n < |w| {
      assert s[n] == w[n];
    } else if a != "" {
      assert s[n] == a[0];
    }
    forall k | 0 <= k < n ensures IsDigit(s[k]) {
      assert s[k] == w[k];
    }
    DigitRunIs(s, n);
  }

  lemma CommonCharacter(w: string, a: string, b: string)
    requires w != "" && !IsDigit(w[0])
    ensures CompareParts(w + a, w + b) == CompareParts(w[1..] + a, w[1..] + b)
  {
    var s, t := w + a, w + b;
    assert s[1..] == w[1..] + a && t[1..] == w[1..] + b;
    KeyIsRunKey(s, t);
    SkipPair(s, t);
    KeyIsRunKey(s[1..], t[1..]);
  }

  lemma CommonNumber(w: string, a: string, b: string, n: nat)
    requires w != "" && IsDigit(w[0]) && n <= |w| && DigitRun(w + a) == n && DigitRun(w + b) == n
    ensures CompareParts(w + a, w + b) == CompareParts(w[n..] + a, w[n..] + b)
  {
    var s, t := w + a, w + b;
    assert s[..n] == w[..n] && t[..n] == w[..n];
    assert s[n..] == w[n..] + a && t[n..] == w[n..] + b;
    KeyIsRunKey(s, t);
    NumbersNext(s, w[..n], w[n..] + a, t, w[..n], w[n..] + b);
  }

  /** What two parts have in common does not matter, unless it ends within a number. */
  lemma {:induction false} CommonPrefix(w: string, a: string, b: string)
    requires NoDigitFirst(a) && NoDigitFirst(b)
    ensures CompareParts(w + a, w + b) == CompareParts(a, b)
    decreases |w|
  {
    if w == "" {
      assert w + a == a && w + b == b;
    } else if !IsDigit(w[0]) {
      CommonCharacter(w, a, b);
      CommonPrefix(w[1..], a, b);
    } else {
      var n := DigitRun(w);
      RunOfPrefix(w, a);
      RunOfPrefix(w, b);
      CommonNumber(w, a, b, n);
      CommonPrefix(w[n..], a, b);
    }
  }

  lemma FirstDecides(a: string, b: string)
    requires WeightAt(a) != WeightAt(b)
    ensures CompareParts(a, b) == Sign(WeightAt(a) - WeightAt(b))
  {
    KeyIsRunKey(a, b);
    WeightsDiffer(a, b);
  }

  /** A tilde sorts before anything else, even before the end of the part; any
      other non-digit sorts after the end. */
  lemma SuffixOrder(u: string, c: char, x: string)
    requires NonDigit(c)
    ensures CompareParts(u + [c] + x, u) == if c == '~' then -1 else 1
    ensures CompareParts(u, u + [c] + x) == if c == '~' then 1 else -1
  {
    var a := [c] + x;
    assert u + [c] + x == u + a && u + "" == u;
    CommonPrefix(u, a, "");
    FirstDecides(a, "");
    LexPadAntisymmetric(Key(u + a), Key(u));
  }

  /** After the same beginning, different non-digits decide: the tilde first, then
      the letters by code, then the others by code. */
  lemma CharacterOrder(u: string, c: char, x: string, d: char, y: string)
    requires NonDigit(c) && NonDigit(d) && c != d
    ensures CompareParts(u + [c] + x, u + [d] + y) ==
            if c == '~' then -1 else if d == '~' then 1
            else if Letter(c) && !Letter(d) then -1 else if Letter(d) && !Letter(c) then 1
            else if c < d then -1 else 1
  {
    var a, b := [c] + x, [d] + y;
    assert u + [c] + x == u + a && u + [d] + y == u + b;
    CommonPrefix(u, a, b);
    FirstDecides(a, b);
  }

  /** Where one part goes on with a number and the other with something else or
      nothing, the tilde comes first and everything else last. */
  lemma NumberOrOther(u: string, c: char, x: string, d: string, y: string)
    requires NonDigit(c) && Digits(d) && (u == "" || NonDigit(u[|u| - 1]))
    ensures CompareParts(u + [c] + x, u + d + y) == if c == '~' then -1 else 1
  {
    var a, b := [c] + x, d + y;
    assert u + [c] + x == u + a && u + d + y == u + b;
    WholePrefix(u, a, b);
    FirstDecides(a, b);
  }

  /** As `CommonPrefix`, where the common beginning does not end in a digit. */
  lemma {:induction false} WholePrefix(w: string, a: string, b: string)
    requires w == "" || NonDigit(w[|w| - 1])
    ensures CompareParts(w + a, w + b) == CompareParts(a, b)
    decreases |w|
  {
    if w == "" {
      assert w + a == a && w + b == b;
    } else if !IsDigit(w[0]) {
      CommonCharacter(w, a, b);
      WholePrefix(w[1..], a, b);
    } else {
      var n := DigitRun(w);
      RunInside(w, a);
      RunInside(w, b);
      CommonNumber(w, a, b, n);
      WholePrefix(w[n..], a, b);
    }
  }

  lemma RunInside(w: string, a: string)
    requires DigitRun(w) < |w|
    ensures DigitRun(w + a) == DigitRun(w)
  {
    var n, s := DigitRun(w), w + a;
    forall k | 0 <= k < n ensures IsDigit(s[k]) {
      assert s[k] == w[k];
    }
    assert s[n] == w[n];
    DigitRunIs(s, n);
  }

  /** A digit string without a leading zero; the number 0 is "". */
  predicate Significant(d: string) {
    (forall k :: 0 <= k < |d| ==> '0' <= d[k] <= '9') && (d != "" ==> d[0] != '0')
  }

  function Zeros(n: nat): (z: string)
    ensures |z| == n && forall k :: 0 <= k < n ==> z[k] == '0'
  {
    seq(n, _ => '0')
  }

  /** By length, then by the first different digit, then by what follows. */
  function ByNumber(d: string, x: string, e: string, y: string): int {
    if |d| != |e| then (if |d| < |e| then -1 else 1)
    else if d != e then StrCmp(d, e)
    else CompareParts(x, y)
  }

  /** Numbers compare as numbers: zeros in front do not count, then the longer one is
      larger, then the first different digit decides; equal ones leave it to the rest. */
  lemma NumericOrder(u: string, m: nat, d: string, x: string, n: nat, e: string, y: string)
    requires u == "" || NonDigit(u[|u| - 1])
    requires NoDigitFirst(x) && NoDigitFirst(y)
    requires Significant(d) && Significant(e) && 0 < m + |d| && 0 < n + |e|
    ensures CompareParts(u + (Zeros(m) + d + x), u + (Zeros(n) + e + y)) == ByNumber(d, x, e, y)
  {
    WholePrefix(u, Zeros(m) + d + x, Zeros(n) + e + y);
    ZerosBefore(m, d);
    ZerosBefore(n, e);
    NumbersFirst(Zeros(m) + d, x, Zeros(n) + e, y);
    DigitsDecide(d, x, e, y);
  }

  lemma DigitsDecide(d: string, x: string, e: string, y: string)
    requires Significant(d) && Significant(e)
    ensures ByNumber(d, x, e, y) == if Value(d) != Value(e) then Sign(Value(d) - Value(e)) else CompareParts(x, y)
  {
    NumberOrderIs(d, e);
    StrCmpFacts(d, e);
  }

  lemma ZerosBefore(m: nat, d: string)
    requires Significant(d)
    ensures AllDigits(Zeros(m) + d) && Value(Zeros(m) + d) == Value(d)
  {
    var w := Zeros(m) + d;
    forall k | 0 <= k < |w| ensures IsDigit(w[k]) {
      assert w[k] == if k < m then '0' else d[k - m];
    }
    ValueSkipZeros(w, m);
    assert w[m..] == d;
  }

  lemma NumbersFirst(v: string, x: string, w: string, y: string)
    requires v != "" && w != "" && AllDigits(v) && AllDigits(w) && NoDigitFirst(x) && NoDigitFirst(y)
    ensures CompareParts(v + x, w + y) ==
            if Value(v) != Value(w) then Sign(Value(v) - Value(w)) else CompareParts(x, y)
  {
    NumberThen(v, x);
    NumberThen(w, y);
    KeyIsRunKey(v + x, w + y);
    NumbersNext(v + x, v, x, w + y, w, y);
  }

  lemma NumberThen(v: string, x: string)
    requires v != "" && AllDigits(v) && NoDigitFirst(x)
    ensures var s := v + x; AtNumber(s) && DigitRun(s) == |v| && s[..DigitRun(s)] == v && s[DigitRun(s)..] == x
  {
    var s := v + x;
    forall k | 0 <= k < |v| ensures IsDigit(s[k]) {
      assert s[k] == v[k];
    }
    assert x != "" ==> s[|v|] == x[0];
    DigitRunIs(s, |v|);
  }

  // ---- whole versions ------------------------------------------------------------------------

  /** A version as its text is put together: a number and a colon if it has an epoch,
      the upstream part, and a hyphen and the revision if it has one. */
  function Text(epoch: string, upstream: string, revision: Option<string>): string {
    (if epoch == "" then "" else epoch + ":") + Body(upstream, revision)
  }

  function Body(upstream: string, revision: Option<string>): string {
    match revision
    case None => upstream
    case Some(r) => upstream + "-" + r
  }

  /** The parts that can be told apart again: a colon needs an epoch before it, a
      hyphen a revision behind it. */
  predicate Readable(epoch: string, upstream: string, revision: Option<string>) {
    && (epoch != "" ==> Digits(epoch))
    && (epoch == "" ==> ':' !in Body(upstream, revision))
    && (revision.None? ==> '-' !in upstream)
    && (revision.Some? ==> '-' !in revision.value)
  }

  function Filled(revision: Option<string>, missing: string): string {
    match revision
    case None => missing
    case Some(r) => r
  }

  lemma LastHyphen(u: string, r: string)
    requires '-' !in r
    ensures LastIndex(u + "-" + r, '-') == Some(|u|)
  {
    var s := u + "-" + r;
    assert s[|u| + 1..] == r;
    LastIs(s, '-', |u|);
  }

  lemma LastIs(s: string, c: char, n: nat)
    requires n < |s| && s[n] == c && c !in s[n + 1..]
    ensures LastIndex(s, c) == Some(n)
  {
    forall k | n < k < |s| ensures s[k] != c {
      assert s[k] == s[n + 1..][k - n - 1];
    }
  }

  /** The split at the last hyphen gives back the two parts. */
  lemma BodySplit(e: int, u: string, r: Option<string>, missing: string)
    requires r.None? ==> '-' !in u
    requires r.Some? ==> '-' !in r.value
    ensures SplitRevision(e, Body(u, r), missing) == Parts(e, u, Filled(r, missing))
  {
    match r
    case None =>
    case Some(v) =>
      var s := u + "-" + v;
      LastHyphen(u, v);
      assert s[..|u|] == u && s[|u| + 1..] == v;
  }

  lemma PlainSplits(b: string, p: Parts, q: Parts)
    requires ':' !in b && SplitRevision(0, b, "0") == p && SplitRevision(0, b, "") == q
    ensures MakeRepoSplit(b) == p && FoldinSplit(b) == Some(p) && (Strip(b) == b ==> SolvableSplit(b) == q)
  {
    NoChar(b, ':');
  }

  lemma EpochSplits(e: string, b: string, t: string, p: Parts, q: Parts)
    requires Digits(e) && t == e + ":" + b
    requires SplitRevision(Value(e), b, "0") == p && SplitRevision(Value(e), b, "") == q
    ensures MakeRepoSplit(t) == p && FoldinSplit(t) == Some(p) && (Strip(t) == t ==> SolvableSplit(t) == q)
  {
    EpochApart(e, b, t);
  }

  /** Every script's split gives back the parts the text was put together from. */
  lemma SplitGivesParts(e: string, u: string, r: Option<string>)
    requires Readable(e, u, r)
    ensures MakeRepoSplit(Text(e, u, r)) == Parts(Value(e), u, Filled(r, "0"))
    ensures FoldinSplit(Text(e, u, r)) == Some(Parts(Value(e), u, Filled(r, "0")))
    ensures Tidy(Text(e, u, r)) ==> SolvableSplit(Text(e, u, r)) == Parts(Value(e), u, Filled(r, ""))
  {
    var t, b := Text(e, u, r), Body(u, r);
    var p, q := Parts(Value(e), u, Filled(r, "0")), Parts(Value(e), u, Filled(r, ""));
    BodySplit(Value(e), u, r, "0");
    BodySplit(Value(e), u, r, "");
    if Tidy(t) {
      TidyStays(t);
    }
    if e == "" {
      assert t == b;
      PlainSplits(b, p, q);
    } else {
      EpochSplits(e, b, t, p, q);
    }
  }

  lemma EpochApart(e: string, b: string, t: string)
    requires Digits(e) && t == e + ":" + b
    ensures FirstIndex(t, ':') == Some(|e|) && t[..|e|] == e && t[|e| + 1..] == b
    ensures PyInt(e) == Some(Value(e)) && AllDigitsNonEmpty(e)
  {
    forall k | 0 <= k < |e| ensures e[k] != ':' {
    }
    FirstAt(e, ':', b);
    DigitsAreInt(e);
  }

  // ---- surrounding whitespace ------------------------------------------------------------------

  /** What Python's `str.strip` takes for whitespace in ASCII. */
  predicate Blank(c: char) {
    c as int in {9, 10, 11, 12, 13, 28, 29, 30, 31, 32}
  }

  /** Neither begins nor ends with whitespace. */
  predicate Tidy(t: string) {
    t != "" ==> !Blank(t[0]) && !Blank(t[|t| - 1])
  }

  lemma BlankIsSpace(c: char)
    ensures Blank(c) <==> IsSpace(c)
  {
  }

  lemma TidyStays(t: string)
    requires Tidy(t)
    ensures Strip(t) == t
  {
    if t != "" {
      BlankIsSpace(t[0]);
      BlankIsSpace(t[|t| - 1]);
    }
  }

  lemma {:induction false} LeftBlanks(a: string, s: string)
    requires forall k :: 0 <= k < |a| ==> Blank(a[k])
    ensures LStrip(a + s) == LStrip(s)
    decreases |a|
  {
    if a == "" {
      assert a + s == s;
    } else {
      BlankIsSpace(a[0]);
      LeftBlanks(a[1..], s);
      assert (a + s)[1..] == a[1..] + s;
    }
  }

  lemma {:induction false} RightBlanks(s: string, b: string)
    requires forall k :: 0 <= k < |b| ==> Blank(b[k])
    ensures RStrip(s + b) == RStrip(s)
    decreases |b|
  {
    if b == "" {
      assert s + b == s;
    } else {
      var n := |b| - 1;
      BlankIsSpace(b[n]);
      RightBlanks(s, b[..n]);
      assert (s + b)[..|s + b| - 1] == s + b[..n];
    }
  }

  /** Stripping takes off exactly the whitespace around the text. */
  lemma StripsExactly(a: string, t: string, b: string)
    requires Tidy(t)
    requires (forall k :: 0 <= k < |a| ==> Blank(a[k])) && (forall k :: 0 <= k < |b| ==> Blank(b[k]))
    ensures Strip(a + t + b) == t
  {
    assert a + t + b == a + (t + b);
    LeftBlanks(a, t + b);
    if t == "" {
      assert t + b == b && b + "" == b && "" + b == b;
      LeftBlanks(b, "");
    } else {
      BlankIsSpace(t[0]);
      RightBlanks(t, b);
      TidyStays(t);
    }
  }

  // ---- the order of whole versions -------------------------------------------------------------

  /** Epochs as numbers, then upstream parts, then revisions, a missing one being
      nothing. */
  function PartsOrder(e: string, u: string, r: Option<string>, f: string, w: string, s: Option<string>): int {
    if Value(e) != Value(f) then (if Value(e) < Value(f) then -1 else 1)
    else if CompareParts(u, w) != 0 then CompareParts(u, w)
    else CompareParts(Filled(r, ""), Filled(s, ""))
  }

  lemma FillersAlike(r: Option<string>, s: Option<string>)
    ensures CompareParts(Filled(r, "0"), Filled(s, "0")) == CompareParts(Filled(r, ""), Filled(s, ""))
  {
    MissingRevision(Filled(s, "0"));
    MissingRevision(Filled(r, ""));
  }

  lemma SplitsCompare(p: Parts, q: Parts, n: int, u: string, r: string, m: int, w: string, s: string, c: int)
    requires p == Parts(n, u, r) && q == Parts(m, w, s) && c == CompareParts(r, s)
    ensures CompareSplit(p, q) ==
            if n != m then (if n < m then -1 else 1) else if CompareParts(u, w) != 0 then CompareParts(u, w) else c
  {
  }

  /** All three scripts order versions by epoch, upstream part and revision. */
  lemma VersionsByParts(e: string, u: string, r: Option<string>, f: string, w: string, s: Option<string>)
    requires Readable(e, u, r) && Readable(f, w, s)
    ensures var a, b := Text(e, u, r), Text(f, w, s);
            && MakeRepoCompare(a, b) == PartsOrder(e, u, r, f, w, s)
            && FoldinCompare(a, b) == Some(PartsOrder(e, u, r, f, w, s))
            && (Tidy(a) && Tidy(b) ==> SolvableCompare(a, b) == PartsOrder(e, u, r, f, w, s))
  {
    var a, b := Text(e, u, r), Text(f, w, s);
    SplitGivesParts(e, u, r);
    SplitGivesParts(f, w, s);
    FillersAlike(r, s);
    ThreeCompare(a, b, Value(e), u, r, Value(f), w, s);
  }

  lemma ThreeCompare(a: string, b: string, n: int, u: string, r: Option<string>, m: int, w: string, s: Option<string>)
    requires MakeRepoSplit(a) == Parts(n, u, Filled(r, "0")) && MakeRepoSplit(b) == Parts(m, w, Filled(s, "0"))
    requires FoldinSplit(a) == Some(MakeRepoSplit(a)) && FoldinSplit(b) == Some(MakeRepoSplit(b))
    requires Tidy(a) ==> SolvableSplit(a) == Parts(n, u, Filled(r, ""))
    requires Tidy(b) ==> SolvableSplit(b) == Parts(m, w, Filled(s, ""))
    requires CompareParts(Filled(r, "0"), Filled(s, "0")) == CompareParts(Filled(r, ""), Filled(s, ""))
    ensures var o := if n != m then (if n < m then -1 else 1)
                     else if CompareParts(u, w) != 0 then CompareParts(u, w)
                     else CompareParts(Filled(r, ""), Filled(s, ""));
            && MakeRepoCompare(a, b) == o && FoldinCompare(a, b) == Some(o)
            && (Tidy(a) && Tidy(b) ==> SolvableCompare(a, b) == o)
  {
    var c := CompareParts(Filled(r, ""), Filled(s, ""));
    SplitsCompare(MakeRepoSplit(a), MakeRepoSplit(b), n, u, Filled(r, "0"), m, w, Filled(s, "0"), c);
    if Tidy(a) && Tidy(b) {
      SplitsCompare(SolvableSplit(a), SolvableSplit(b), n, u, Filled(r, ""), m, w, Filled(s, ""), c);
    }
  }

  /** A pre-release, marked by a tilde, sorts before its release in every script, and
      anything else that is appended sorts after it, whatever the revisions. */
  lemma PreReleaseFirst(e: string, u: string, c: char, x: string, r: Option<string>, s: Option<string>)
    requires NonDigit(c) && Readable(e, u + [c] + x, r) && Readable(e, u, s)
    ensures var a, b, o := Text(e, u + [c] + x, r), Text(e, u, s), if c == '~' then -1 else 1;
            && MakeRepoCompare(a, b) == o && FoldinCompare(a, b) == Some(o)
            && (Tidy(a) && Tidy(b) ==> SolvableCompare(a, b) == o)
  {
    VersionsByParts(e, u + [c] + x, r, e, u, s);
    SuffixOrder(u, c, x);
  }

  /** The same for the revision, say of a backport. */
  lemma BackportFirst(e: string, u: string, r: string, c: char, x: string)
    requires NonDigit(c) && Readable(e, u, Some(r + [c] + x)) && Readable(e, u, Some(r))
    ensures var a, b, o := Text(e, u, Some(r + [c] + x)), Text(e, u, Some(r)), if c == '~' then -1 else 1;
            && MakeRepoCompare(a, b) == o && FoldinCompare(a, b) == Some(o)
            && (Tidy(a) && Tidy(b) ==> SolvableCompare(a, b) == o)
  {
    VersionsByParts(e, u, Some(r + [c] + x), e, u, Some(r));
    LexPadReflexive(Key(u));
    SuffixOrder(r, c, x);
  }

  /** A character that differs in the upstream part decides in every script. */
  lemma CharacterDecides(e: string, u: string, c: char, x: string, d: char, y: string, r: Option<string>,
                         s: Option<string>)
    requires NonDigit(c) && NonDigit(d) && c != d
    requires Readable(e, u + [c] + x, r) && Readable(e, u + [d] + y, s)
    ensures var a, b := Text(e, u + [c] + x, r), Text(e, u + [d] + y, s);
            var o := if c == '~' then -1 else if d == '~' then 1
                     else if Letter(c) && !Letter(d) then -1 else if Letter(d) && !Letter(c) then 1
                     else if c < d then -1 else 1;
            && MakeRepoCompare(a, b) == o && FoldinCompare(a, b) == Some(o)
            && (Tidy(a) && Tidy(b) ==> SolvableCompare(a, b) == o)
  {
    VersionsByParts(e, u + [c] + x, r, e, u + [d] + y, s);
    CharacterOrder(u, c, x, d, y);
  }

  /** Without epoch and revision. */
  lemma PlainPreRelease(u: string, x: string)
    requires ':' !in u && ':' !in x && '-' !in u && '-' !in x && Tidy(u) && Tidy(u + "~" + x)
    ensures MakeRepoCompare(u + "~" + x, u) == -1 && SolvableCompare(u + "~" + x, u) == -1
    ensures FoldinCompare(u + "~" + x, u) == Some(-1)
  {
    var v := u + ['~'] + x;
    assert v == u + "~" + x;
    assert Text("", v, None) == v && Text("", u, None) == u;
    PreReleaseFirst("", u, '~', x, None, None);
  }

  /** The smallest case. */
  lemma ReleaseCandidate()
    ensures MakeRepoCompare("1~rc1", "1") == -1 && SolvableCompare("1~rc1", "1") == -1
    ensures FoldinCompare("1~rc1", "1") == Some(-1)
  {
    var u, x, v := "1", "rc1", "1~rc1";
    assert u + "~" + x == v;
    PlainPreRelease(u, x);
  }

  /** A package file name gives back its three parts. */
  lemma FileNameParts(package: string, version: string, arch: string)
    requires '_' !in package && '_' !in version
    ensures SplitFileName(package + "_" + version + "_" + arch + ".deb") == FileName(package, version, arch)
  {
    var stem := package + "_" + version + "_" + arch;
    var fn := stem + ".deb";
    assert fn[|fn| - 4..] == ".deb" && fn[..|fn| - 4] == stem;
    assert stem == package + "_" + (version + "_" + arch);
    FirstAt(package, '_', version + "_" + arch);
    assert stem[..|package|] == package && stem[|package| + 1..] == version + "_" + arch;
    FirstAt(version, '_', arch);
    var rest := version + "_" + arch;
    assert rest[..|version|] == version && rest[|version| + 1..] == arch;
  }

  lemma FirstAt(e: string, c: char, rest: string)
    requires c !in e
    ensures FirstIndex(e + [c] + rest, c) == Some(|e|)
  {
    var s := e + [c] + rest;
    assert s[|e|] == c;
    forall k | 0 <= k < |e| ensures s[k] != c {
      assert s[k] == e[k];
    }
  }

  /** Package file names are ordered by package, then version, then architecture. */
  lemma FileNamesByParts(p: string, u: string, a: string, q: string, w: string, b: string)
    requires '_' !in p && '_' !in u && '_' !in q && '_' !in w
    ensures CompareFileNames(p + "_" + u + "_" + a + ".deb", q + "_" + w + "_" + b + ".deb") ==
            if p != q then StrCmp(p, q) else if MakeRepoCompare(u, w) != 0 then MakeRepoCompare(u, w) else StrCmp(a, b)
  {
    FileNameParts(p, u, a);
    FileNameParts(q, w, b);
    StrCmpFacts(a, b);
  }

  /** What each relation of a dependency asks of the version at hand; one that is not
      known is always met. */
  lemma RelationsMean(have: string, op: string, want: string)
    ensures var c := SolvableCompare(have, want);
            && c in {-1, 0, 1}
            && (op in {">=", ">"} ==> (ConstraintOk(have, op, want) <==> c != -1))
            && (op == ">>" ==> (ConstraintOk(have, op, want) <==> c == 1))
            && (op in {"<=", "<"} ==> (ConstraintOk(have, op, want) <==> c != 1))
            && (op == "<<" ==> (ConstraintOk(have, op, want) <==> c == -1))
            && (op == "=" ==> (ConstraintOk(have, op, want) <==> c == 0))
            && (op !in {">=", ">", ">>", "<=", "<", "<<", "="} ==> ConstraintOk(have, op, want))
  {
    VersionPreorder();
    Bounded(SolvableCompare, have, want);
  }

  lemma Bounded<T(!new)>(cmp: (T, T) -> int, a: T, b: T)
    requires TotalPreorder(cmp)
    ensures -1 <= cmp(a, b) <= 1
  {
  }
}
