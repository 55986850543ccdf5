/** The hand-written comparison loops of the repository's scripts, each proved to
    compute the one specification `CompareParts`. */
module VersionPorts {
  import opened VersionOrder

  // ---- the scanning loops --------------------------------------------------------------

  lemma {:induction false} DigitRunIs(s: string, n: nat)
    requires n <= |s| && (forall k :: 0 <= k < n ==> IsDigit(s[k])) && (n < |s| ==> !IsDigit(s[n]))
    ensures DigitRun(s) == n
    decreases n
  {
    if n > 0 {
      DigitRunIs(s[1..], n - 1);
    }
  }

  method SkipZeros(a: string, start: nat) returns (i: nat)
    requires start <= |a|
    ensures start <= i <= |a|
    ensures forall k :: start <= k < i ==> a[k] == '0'
    ensures i < |a| ==> a[i] != '0'
  {
    i := start;
    while i < |a| && a[i] == '0'
      invariant start <= i <= |a|
      invariant forall k :: start <= k < i ==> a[k] == '0'
    {
      i := i + 1;
    }
  }

  method SkipDigits(a: string, start: nat) returns (i: nat)
    requires start <= |a|
    ensures start <= i <= |a|
    ensures forall k :: start <= k < i ==> IsDigit(a[k])
    ensures i < |a| ==> !IsDigit(a[i])
  {
    i := start;
    while i < |a| && IsDigit(a[i])
      invariant start <= i <= |a|
      invariant forall k :: start <= k < i ==> IsDigit(a[k])
    {
      i := i + 1;
    }
  }

  /** Comparing what is left of two parts, inside a non-digit run. */
  function RunCmp(a: string, i: nat, b: string, j: nat): int
    requires i <= |a| && j <= |b|
  {
    LexPad(RunKey(a[i..]), RunKey(b[j..]))
  }

  /** The number at `i`, with `z` past its zeros and `e` past its digits. */
  ghost predicate NumberAt(a: string, i: nat, z: nat, e: nat) {
    && i <= z <= e <= |a|
    && (forall k :: i <= k < z ==> a[k] == '0')
    && (forall k :: z <= k < e ==> IsDigit(a[k]))
    && (z < |a| ==> a[z] != '0')
    && (e < |a| ==> !IsDigit(a[e]))
  }

  lemma NumberAtRun(a: string, i: nat, z: nat, e: nat)
    requires NumberAt(a, i, z, e)
    ensures DigitRun(a[i..]) == e - i
  {
    var s := a[i..];
    forall k | 0 <= k < e - i ensures IsDigit(s[k]) {
      assert s[k] == a[i + k];
    }
    DigitRunIs(s, e - i);
  }

  lemma NumberAtValue(a: string, i: nat, z: nat, e: nat)
    requires NumberAt(a, i, z, e)
    ensures Value(a[i..e]) == Value(a[z..e])
    ensures AllDigits(a[z..e]) && (z < e ==> a[z..e][0] != '0')
  {
    var s := a[i..e];
    assert forall k :: 0 <= k < z - i ==> s[k] == a[i + k];
    assert AllDigits(s) by {
      forall k | 0 <= k < |s| ensures IsDigit(s[k]) {
        assert s[k] == a[i + k];
      }
    }
    ValueSkipZeros(s, z - i);
    assert s[z - i..] == a[z..e];
  }

  lemma NumbersNextAt(a: string, i: nat, e: nat, b: string, j: nat, f: nat)
    requires i <= e <= |a| && j <= f <= |b| && AtNumber(a[i..]) && AtNumber(b[j..])
    requires DigitRun(a[i..]) == e - i && DigitRun(b[j..]) == f - j
    ensures RunCmp(a, i, b, j) ==
            if Value(a[i..e]) != Value(b[j..f]) then Sign(Value(a[i..e]) - Value(b[j..f]))
            else LexPad(Key(a[e..]), Key(b[f..]))
  {
    var s, t := a[i..], b[j..];
    assert s[..e - i] == a[i..e] && t[..f - j] == b[j..f];
    assert s[e - i..] == a[e..] && t[f - j..] == b[f..];
    NumbersNext(s, a[i..e], a[e..], t, b[j..f], b[f..]);
  }

  /** With both numbers located, they decide by length, then by digits. */
  lemma NumbersDecide(a: string, i: nat, z: nat, e: nat, b: string, j: nat, y: nat, f: nat)
    requires NumberAt(a, i, z, e) && NumberAt(b, j, y, f)
    requires AtNumber(a[i..]) && AtNumber(b[j..])
    ensures var c := NumberOrder(a[z..e], b[y..f]);
            RunCmp(a, i, b, j) == if c != 0 then c else LexPad(Key(a[e..]), Key(b[f..]))
  {
    NumberAtRun(a, i, z, e);
    NumberAtRun(b, j, y, f);
    NumberAtValue(a, i, z, e);
    NumberAtValue(b, j, y, f);
    NumbersNextAt(a, i, e, b, j, f);
    NumberOrderIs(a[z..e], b[y..f]);
  }

  /** Digit strings without leading zeros: by length, then by digits. */
  function NumberOrder(x: string, y: string): int {
    if |x| != |y| then Sign(|x| - |y|) else StrCmp(x, y)
  }

  lemma NumberOrderIs(x: string, w: string)
    requires AllDigits(x) && AllDigits(w) && (x != "" ==> x[0] != '0') && (w != "" ==> w[0] != '0')
    ensures NumberOrder(x, w) == Sign(Value(x) - Value(w))
  {
    if |x| < |w| {
      LongerNumber(x, w);
    } else if |w| < |x| {
      LongerNumber(w, x);
    } else {
      SameLengthNumbers(x, w);
    }
  }

  /** One weighed position of the non-digit loop of make-repo and the sync tool. */
  function CharOrder(a: string, i: nat): int
    requires i <= |a|
  {
    if i < |a| && !IsDigit(a[i]) then Weight(a[i]) else 0
  }

  /** Equal weights are read together; different ones decide. */
  lemma WeighedPair(a: string, i: nat, b: string, j: nat)
    requires i <= |a| && j <= |b|
    ensures CharOrder(a, i) != CharOrder(b, j) ==> RunCmp(a, i, b, j) == Sign(CharOrder(a, i) - CharOrder(b, j))
    ensures CharOrder(a, i) == CharOrder(b, j) != 0 ==>
              i < |a| && j < |b| && RunCmp(a, i, b, j) == RunCmp(a, i + 1, b, j + 1)
    ensures CharOrder(a, i) == 0 <==> AtNumber(a[i..])
    ensures CharOrder(b, j) == 0 <==> AtNumber(b[j..])
  {
    var x, y := a[i..], b[j..];
    assert CharOrder(a, i) == WeightAt(x) && CharOrder(b, j) == WeightAt(y);
    if CharOrder(a, i) != CharOrder(b, j) {
      WeightsDiffer(x, y);
    } else if CharOrder(a, i) != 0 {
      SkipPair(x, y);
      assert x[1..] == a[i + 1..] && y[1..] == b[j + 1..];
    }
  }

  // ---- make-repo and the sync tool ----------------------------------------------------------

  method WeighRun(a: string, i: nat, b: string, j: nat) returns (ia: nat, ib: nat, r: int)
    requires i <= |a| && j <= |b|
    ensures i <= ia <= |a| && j <= ib <= |b|
    ensures r != 0 ==> r == RunCmp(a, i, b, j)
    ensures r == 0 ==> AtNumber(a[ia..]) && AtNumber(b[ib..]) && RunCmp(a, i, b, j) == RunCmp(a, ia, b, ib)
  {
    ia, ib := i, j;
    while (ia < |a| && !IsDigit(a[ia])) || (ib < |b| && !IsDigit(b[ib]))
      invariant i <= ia <= |a| && j <= ib <= |b|
      invariant RunCmp(a, i, b, j) == RunCmp(a, ia, b, ib)
      decreases |a| - ia + |b| - ib
    {
      var oa, ob := CharOrder(a, ia), CharOrder(b, ib);
      WeighedPair(a, ia, b, ib);
      if oa != ob {
        return ia, ib, if oa < ob then -1 else 1;
      }
      ia := ia + 1;
      ib := ib + 1;
    }
    return ia, ib, 0;
  }

  /** `_deb_verrevcmp`: compare numbers by digit count, then as strings. */
  method VerRevCmp(a: string, b: string) returns (r: int)
    ensures r == CompareParts(a, b)
  {
    var ia, ib := 0, 0;
    assert a[0..] == a && b[0..] == b;
    while ia < |a| || ib < |b|
      invariant 0 <= ia <= |a| && 0 <= ib <= |b|
      invariant CompareParts(a, b) == LexPad(Key(a[ia..]), Key(b[ib..]))
      decreases |a| - ia + |b| - ib
    {
      KeyIsRunKey(a[ia..], b[ib..]);
      var na, nb, w := WeighRun(a, ia, b, ib);
      if w != 0 {
        return w;
      }
      var za := SkipZeros(a, na);
      var zb := SkipZeros(b, nb);
      var enda := SkipDigits(a, za);
      var endb := SkipDigits(b, zb);
      NumbersDecide(a, na, za, enda, b, nb, zb, endb);
      Progress(a, ia, na, enda, b, ib, nb, endb);
      var lena, lenb := enda - za, endb - zb;
      if lena != lenb {
        return if lena < lenb then -1 else 1;
      }
      StrCmpFacts(a[za..enda], b[zb..endb]);
      if a[za..enda] != b[zb..endb] {
        return StrCmp(a[za..enda], b[zb..endb]);
      }
      ia, ib := enda, endb;
    }
    return 0;
  }

  /** A round that starts with something left reads something. */
  lemma Progress(a: string, i: nat, n: nat, e: nat, b: string, j: nat, m: nat, f: nat)
    requires i <= n <= e <= |a| && j <= m <= f <= |b| && (i < |a| || j < |b|)
    requires AtNumber(a[n..]) && AtNumber(b[m..]) && (e < |a| ==> !IsDigit(a[e])) && (f < |b| ==> !IsDigit(b[f]))
    ensures i < e || j < f
  {
  }

  // ---- check-repo-solvable and repo-foldin -----------------------------------------------------

  /** First difference of two equally long digit runs, by character code. */
  function FirstDiff(x: string, y: string): int {
    if x == "" || y == "" then 0
    else if x[0] != y[0] then x[0] as int - y[0] as int
    else FirstDiff(x[1..], y[1..])
  }

  lemma {:induction false} FirstDiffIs(x: string, y: string)
    requires |x| == |y|
    ensures Sign(FirstDiff(x, y)) == StrCmp(x, y)
  {
    if x != "" && x[0] == y[0] {
      FirstDiffIs(x[1..], y[1..]);
    }
  }

  lemma {:induction false} FirstDiffSnoc(x: string, y: string, c: char, d: char)
    requires |x| == |y|
    ensures FirstDiff(x + [c], y + [d]) ==
            if FirstDiff(x, y) != 0 then FirstDiff(x, y) else if x == y then c as int - d as int else FirstDiff(x, y)
    ensures FirstDiff(x, y) == 0 <==> x == y
  {
    if x == "" {
      assert x + [c] == [c] && y + [d] == [d];
      assert [c][1..] == "" && [d][1..] == "";
    } else {
      assert (x + [c])[1..] == x[1..] + [c] && (y + [d])[1..] == y[1..] + [d];
      FirstDiffSnoc(x[1..], y[1..], c, d);
      assert x == [x[0]] + x[1..] && y == [y[0]] + y[1..];
    }
  }

  /** Walk two digit runs together, remembering the first difference. */
  method WalkDigits(a: string, i0: nat, b: string, j0: nat) returns (i: nat, j: nat, first: int)
    requires i0 <= |a| && j0 <= |b|
    ensures i0 <= i <= |a| && j0 <= j <= |b| && i - i0 == j - j0
    ensures forall k :: i0 <= k < i ==> IsDigit(a[k])
    ensures forall k :: j0 <= k < j ==> IsDigit(b[k])
    ensures !(i < |a| && IsDigit(a[i]) && j < |b| && IsDigit(b[j]))
    ensures first == FirstDiff(a[i0..i], b[j0..j])
  {
    i, j, first := i0, j0, 0;
    while i < |a| && IsDigit(a[i]) && j < |b| && IsDigit(b[j])
      invariant i0 <= i <= |a| && j0 <= j <= |b| && i - i0 == j - j0
      invariant forall k :: i0 <= k < i ==> IsDigit(a[k])
      invariant forall k :: j0 <= k < j ==> IsDigit(b[k])
      invariant first == FirstDiff(a[i0..i], b[j0..j])
    {
      FirstDiffSnoc(a[i0..i], b[j0..j], a[i], b[j]);
      assert a[i0..i + 1] == a[i0..i] + [a[i]] && b[j0..j + 1] == b[j0..j] + [b[j]];
      if first == 0 {
        first := a[i] as int - b[j] as int;
      }
      i := i + 1;
      j := j + 1;
    }
  }

  /** What is left after the walk decides as the located numbers do. */
  lemma WalkDecides(a: string, i: nat, z: nat, m: nat, b: string, j: nat, y: nat, n: nat, first: int)
    requires i <= z <= m <= |a| && j <= y <= n <= |b| && m - z == n - y
    requires (forall k :: i <= k < z ==> a[k] == '0') && (forall k :: j <= k < y ==> b[k] == '0')
    requires (z < |a| ==> a[z] != '0') && (y < |b| ==> b[y] != '0')
    requires (forall k :: z <= k < m ==> IsDigit(a[k])) && (forall k :: y <= k < n ==> IsDigit(b[k]))
    requires !(m < |a| && IsDigit(a[m]) && n < |b| && IsDigit(b[n]))
    requires AtNumber(a[i..]) && AtNumber(b[j..]) && first == FirstDiff(a[z..m], b[y..n])
    ensures RunCmp(a, i, b, j) ==
            if m < |a| && IsDigit(a[m]) then 1
            else if n < |b| && IsDigit(b[n]) then -1
            else if first != 0 then Sign(first)
            else LexPad(Key(a[m..]), Key(b[n..]))
  {
    var e, f := WalkEnds(a, z, m, b, y, n, first);
    NumberAtFrom(a, i, z, m, e);
    NumberAtFrom(b, j, y, n, f);
    NumbersDecide(a, i, z, e, b, j, y, f);
  }

  lemma NumberAtFrom(a: string, i: nat, z: nat, m: nat, e: nat)
    requires i <= z <= m <= e <= |a| && (z < |a| ==> a[z] != '0')
    requires (forall k :: i <= k < z ==> a[k] == '0') && (forall k :: z <= k < m ==> IsDigit(a[k]))
    requires (forall k :: m <= k < e ==> IsDigit(a[k])) && (e < |a| ==> !IsDigit(a[e]))
    ensures NumberAt(a, i, z, e)
  {
  }

  lemma WalkEnds(a: string, z: nat, m: nat, b: string, y: nat, n: nat, first: int) returns (e: nat, f: nat)
    requires z <= m <= |a| && y <= n <= |b| && m - z == n - y
    requires !(m < |a| && IsDigit(a[m]) && n < |b| && IsDigit(b[n])) && first == FirstDiff(a[z..m], b[y..n])
    ensures m <= e <= |a| && (forall k :: m <= k < e ==> IsDigit(a[k])) && (e < |a| ==> !IsDigit(a[e]))
    ensures n <= f <= |b| && (forall k :: n <= k < f ==> IsDigit(b[k])) && (f < |b| ==> !IsDigit(b[f]))
    ensures NumberOrder(a[z..e], b[y..f]) ==
            if m < |a| && IsDigit(a[m]) then 1 else if n < |b| && IsDigit(b[n]) then -1 else Sign(first)
    ensures !(m < |a| && IsDigit(a[m])) ==> e == m
    ensures !(n < |b| && IsDigit(b[n])) ==> f == n
  {
    e := RunEnd(a, m);
    f := RunEnd(b, n);
    assert a[z..e][..m - z] == a[z..m] && b[y..f][..n - y] == b[y..n];
    WalkOrder(a[z..e], b[y..f], m - z, first);
  }

  lemma WalkOrder(x: string, w: string, k: nat, first: int)
    requires k <= |x| && k <= |w| && (|x| == k || |w| == k) && first == FirstDiff(x[..k], w[..k])
    ensures NumberOrder(x, w) == if |x| > k then 1 else if |w| > k then -1 else Sign(first)
  {
    FirstDiffIs(x[..k], w[..k]);
    if |x| == |w| {
      assert x[..k] == x && w[..k] == w;
    }
  }

  lemma RunEnd(a: string, m: nat) returns (e: nat)
    requires m <= |a|
    ensures m <= e <= |a| && (forall k :: m <= k < e ==> IsDigit(a[k])) && (e < |a| ==> !IsDigit(a[e]))
    ensures e > m <==> m < |a| && IsDigit(a[m])
  {
    e := m + DigitRun(a[m..]);
    forall k | m <= k < e ensures IsDigit(a[k]) {
      assert a[k] == a[m..][k - m];
    }
    assert e < |a| ==> a[e] == a[m..][e - m];
  }

  /** `_order` at a position: 0 at the end and at a digit. */
  function PositionOrder(a: string, i: nat): int
  {
    if i >= |a| || IsDigit(a[i]) then 0 else Weight(a[i])
  }

  /** check-repo-solvable's non-digit loop: both indices always advance. */
  method SolvableRun(a: string, i0: nat, b: string, j0: nat) returns (i: nat, j: nat, r: int)
    requires i0 <= |a| && j0 <= |b|
    ensures i0 <= i <= |a| && j0 <= j <= |b|
    ensures r != 0 ==> Sign(r) == RunCmp(a, i0, b, j0)
    ensures r == 0 ==> AtNumber(a[i..]) && AtNumber(b[j..]) && RunCmp(a, i0, b, j0) == RunCmp(a, i, b, j)
  {
    i, j := i0, j0;
    while (i < |a| && !IsDigit(a[i])) || (j < |b| && !IsDigit(b[j]))
      invariant i0 <= i <= |a| && j0 <= j <= |b|
      invariant RunCmp(a, i0, b, j0) == RunCmp(a, i, b, j)
      decreases |a| - i + |b| - j
    {
      var ac, bc := PositionOrder(a, i), PositionOrder(b, j);
      WeighedPair(a, i, b, j);
      if ac != bc {
        return i, j, ac - bc;
      }
      i := i + 1;
      j := j + 1;
    }
    return i, j, 0;
  }

  /** check-repo-solvable's `_verrevcmp`; differences are returned as they are. */
  method SolvableVerRevCmp(a: string, b: string) returns (r: int)
    ensures Sign(r) == CompareParts(a, b)
  {
    var i, j := 0, 0;
    assert a[0..] == a && b[0..] == b;
    while i < |a| || j < |b|
      invariant 0 <= i <= |a| && 0 <= j <= |b|
      invariant CompareParts(a, b) == LexPad(Key(a[i..]), Key(b[j..]))
      decreases |a| - i + |b| - j
    {
      KeyIsRunKey(a[i..], b[j..]);
      var ni, nj, w := SolvableRun(a, i, b, j);
      if w != 0 {
        return w;
      }
      var z := SkipZeros(a, ni);
      var y := SkipZeros(b, nj);
      var m, n, first := WalkDigits(a, z, b, y);
      WalkDecides(a, ni, z, m, b, nj, y, n, first);
      if m < |a| && IsDigit(a[m]) {
        return 1;
      }
      if n < |b| && IsDigit(b[n]) {
        return -1;
      }
      if first != 0 {
        return first;
      }
      Progress(a, i, ni, m, b, j, nj, n);
      i, j := m, n;
    }
    return 0;
  }

  /** repo-foldin's non-digit loop: each index advances while its string lasts. */
  method FoldinRun(val: string, i0: nat, ref: string, j0: nat) returns (i: nat, j: nat, r: int)
    requires i0 <= |val| && j0 <= |ref|
    ensures i0 <= i <= |val| && j0 <= j <= |ref|
    ensures r != 0 ==> r == RunCmp(val, i0, ref, j0)
    ensures r == 0 ==> AtNumber(val[i..]) && AtNumber(ref[j..]) && RunCmp(val, i0, ref, j0) == RunCmp(val, i, ref, j)
  {
    i, j := i0, j0;
    while (i < |val| && !IsDigit(val[i])) || (j < |ref| && !IsDigit(ref[j]))
      invariant i0 <= i <= |val| && j0 <= j <= |ref|
      invariant RunCmp(val, i0, ref, j0) == RunCmp(val, i, ref, j)
      decreases |val| - i + |ref| - j
    {
      var vc, rc := PositionOrder(val, i), PositionOrder(ref, j);
      WeighedPair(val, i, ref, j);
      if vc != rc {
        return i, j, if vc < rc then -1 else 1;
      }
      if i < |val| { i := i + 1; }
      if j < |ref| { j := j + 1; }
    }
    return i, j, 0;
  }

  /** repo-foldin's `_verrevcmp`; differences are returned as signs. */
  method FoldinVerRevCmp(val: string, ref: string) returns (r: int)
    ensures r == CompareParts(val, ref)
  {
    var i, j := 0, 0;
    assert val[0..] == val && ref[0..] == ref;
    while i < |val| || j < |ref|
      invariant 0 <= i <= |val| && 0 <= j <= |ref|
      invariant CompareParts(val, ref) == LexPad(Key(val[i..]), Key(ref[j..]))
      decreases |val| - i + |ref| - j
    {
      KeyIsRunKey(val[i..], ref[j..]);
      var ni, nj, w := FoldinRun(val, i, ref, j);
      if w != 0 {
        return w;
      }
      var z := SkipZeros(val, ni);
      var y := SkipZeros(ref, nj);
      var m, n, first := WalkDigits(val, z, ref, y);
      WalkDecides(val, ni, z, m, ref, nj, y, n, first);
      if m < |val| && IsDigit(val[m]) {
        return 1;
      }
      if n < |ref| && IsDigit(ref[n]) {
        return -1;
      }
      if first != 0 {
        return if first < 0 then -1 else 1;
      }
      Progress(val, i, ni, m, ref, j, nj, n);
      i, j := m, n;
    }
    return 0;
  }
}
