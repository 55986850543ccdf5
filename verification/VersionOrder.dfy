/** Debian version order (section 5.6.12 of the Debian Policy Manual), as a
    lexicographic order on integer keys: a version part alternates runs of
    non-digits, weighed character by character, and numbers. */
module VersionOrder {

  // ---- comparisons as total preorders -----------------------------------------------

  function Sign(x: int): int {
    if x < 0 then -1 else if x > 0 then 1 else 0
  }

  ghost predicate TotalPreorder<T(!new)>(cmp: (T, T) -> int) {
    && (forall a :: cmp(a, a) == 0)
    && (forall a, b :: -1 <= cmp(a, b) <= 1 && cmp(a, b) == -cmp(b, a))
    && (forall a, b, c :: cmp(a, b) <= 0 && cmp(b, c) <= 0 ==> cmp(a, c) <= 0)
  }

  /** In a total preorder, equal-comparing values compare alike to everything. */
  lemma EqualsCompareAlike<T(!new)>(cmp: (T, T) -> int, a: T, b: T, c: T)
    requires TotalPreorder(cmp) && cmp(a, b) == 0
    ensures cmp(a, c) == cmp(b, c) && cmp(c, a) == cmp(c, b)
  {
    assert cmp(b, a) == 0;
    assert cmp(a, c) == -cmp(c, a) && cmp(b, c) == -cmp(c, b);
    assert cmp(a, c) <= 0 ==> cmp(b, c) <= 0;
    assert cmp(b, c) <= 0 ==> cmp(a, c) <= 0;
    assert cmp(c, a) <= 0 ==> cmp(c, b) <= 0;
    assert cmp(c, b) <= 0 ==> cmp(c, a) <= 0;
  }

  /** Comparing by a key keeps the laws. */
  lemma Pullback<A(!new), B(!new)>(key: A -> B, cmp: (B, B) -> int, g: (A, A) -> int)
    requires TotalPreorder(cmp)
    requires forall a, b :: g(a, b) == cmp(key(a), key(b))
    ensures TotalPreorder(g)
  {
    forall a, b, c | g(a, b) <= 0 && g(b, c) <= 0 ensures g(a, c) <= 0 {
      assert cmp(key(a), key(b)) <= 0 && cmp(key(b), key(c)) <= 0;
    }
  }

  /** Comparing by one order and, where it ties, by another keeps the laws. */
  lemma Refine<T(!new)>(first: (T, T) -> int, second: (T, T) -> int, g: (T, T) -> int)
    requires TotalPreorder(first) && TotalPreorder(second)
    requires forall a, b :: g(a, b) == if first(a, b) != 0 then first(a, b) else second(a, b)
    ensures TotalPreorder(g)
  {
    forall a, b, c | g(a, b) <= 0 && g(b, c) <= 0 ensures g(a, c) <= 0 {
      assert first(a, b) <= 0 && first(b, c) <= 0;
      assert first(a, c) <= 0;
      if first(a, c) == 0 {
        Squeeze(first, a, b, c);
        assert second(a, b) <= 0 && second(b, c) <= 0;
      }
    }
  }

  lemma Squeeze<T(!new)>(cmp: (T, T) -> int, a: T, b: T, c: T)
    requires TotalPreorder(cmp) && cmp(a, b) <= 0 && cmp(b, c) <= 0 && cmp(a, c) == 0
    ensures cmp(a, b) == 0 && cmp(b, c) == 0
  {
    assert cmp(c, a) == 0;
    assert cmp(b, a) <= 0;
    assert cmp(c, b) <= 0;
  }

  // ---- integer sequences compared with zero padding -------------------------------------

  function Head(a: seq<int>): int { if a == [] then 0 else a[0] }

  function Tail(a: seq<int>): seq<int> { if a == [] then [] else a[1..] }

  function LexPad(a: seq<int>, b: seq<int>): int
    decreases |a| + |b|
  {
    if a == [] && b == [] then 0
    else if Head(a) != Head(b) then Sign(Head(a) - Head(b))
    else LexPad(Tail(a), Tail(b))
  }

  lemma {:induction false} LexPadReflexive(a: seq<int>)
    ensures LexPad(a, a) == 0
    decreases |a|
  {
    if a != [] {
      LexPadReflexive(a[1..]);
    }
  }

  lemma {:induction false} LexPadAntisymmetric(a: seq<int>, b: seq<int>)
    ensures -1 <= LexPad(a, b) <= 1 && LexPad(a, b) == -LexPad(b, a)
    decreases |a| + |b|
  {
    if !(a == [] && b == []) && Head(a) == Head(b) {
      LexPadAntisymmetric(Tail(a), Tail(b));
    }
  }

  lemma {:induction false} LexPadTransitive(a: seq<int>, b: seq<int>, c: seq<int>)
    requires LexPad(a, b) <= 0 && LexPad(b, c) <= 0
    ensures LexPad(a, c) <= 0
    decreases |a| + |b| + |c|
  {
    if a == [] && b == [] && c == [] {
    } else if Head(a) == Head(b) == Head(c) {
      LexPadUnfold(a, b);
      LexPadUnfold(b, c);
      LexPadUnfold(a, c);
      LexPadTransitive(Tail(a), Tail(b), Tail(c));
    } else {
      LexPadUnfold(a, b);
      LexPadUnfold(b, c);
      LexPadUnfold(a, c);
    }
  }

  /** One position at a time; past both ends everything is 0. */
  lemma LexPadUnfold(a: seq<int>, b: seq<int>)
    ensures LexPad(a, b) == if Head(a) != Head(b) then Sign(Head(a) - Head(b)) else LexPad(Tail(a), Tail(b))
  {
  }

  lemma LexPadPreorder()
    ensures TotalPreorder(LexPad)
  {
    forall a, b, c
      ensures LexPad(a, a) == 0
      ensures -1 <= LexPad(a, b) <= 1 && LexPad(a, b) == -LexPad(b, a)
      ensures LexPad(a, b) <= 0 && LexPad(b, c) <= 0 ==> LexPad(a, c) <= 0
    {
      LexPadReflexive(a);
      LexPadAntisymmetric(a, b);
      if LexPad(a, b) <= 0 && LexPad(b, c) <= 0 {
        LexPadTransitive(a, b, c);
      }
    }
  }

  // ---- characters, runs and numbers ---------------------------------------------------------

  predicate IsDigit(c: char) { '0' <= c <= '9' }

  predicate IsAlpha(c: char) { 'a' <= c <= 'z' || 'A' <= c <= 'Z' }

  /** Weight of a non-digit: `~` before the end of the part, letters before the
      rest.  The end of the part and a digit both weigh 0. */
  function Weight(c: char): (w: int)
    ensures w != 0
  {
    if c == '~' then -1 else if IsAlpha(c) then c as int else c as int + 256
  }

  /** The value of a run of decimal digits. */
  function Value(ds: string): nat {
    if ds == "" then 0
    else 10 * Value(ds[..|ds| - 1]) + Ones(ds[|ds| - 1])
  }

  function Ones(c: char): nat {
    if IsDigit(c) then c as int - '0' as int else 0
  }

  /** Length of the leading run of digits. */
  function DigitRun(s: string): (n: nat)
    ensures n <= |s|
    ensures forall k :: 0 <= k < n ==> IsDigit(s[k])
    ensures n < |s| ==> !IsDigit(s[n])
  {
    if s == "" || !IsDigit(s[0]) then 0 else 1 + DigitRun(s[1..])
  }

  /** The key of a version part: the weights of its first non-digit run, the 0
      that ends the run, the number after it, and so on.  The end of the part
      reads as an empty run and the number 0, forever. */
  function Key(s: string): seq<int>
    decreases |s|, 1
  {
    if s == "" then [] else RunKey(s)
  }

  function RunKey(s: string): seq<int>
    decreases |s|, 0
  {
    if s != "" && !IsDigit(s[0]) then [Weight(s[0])] + RunKey(s[1..])
    else
      var n := DigitRun(s);
      [0, Value(s[..n])] + (if n == 0 then [] else Key(s[n..]))
  }

  /** The specification of every version-part comparison. */
  function CompareParts(a: string, b: string): int {
    LexPad(Key(a), Key(b))
  }

  // ---- code-point order on strings --------------------------------------------------------------

  function StrCmp(a: string, b: string): int {
    if a == "" && b == "" then 0
    else if a == "" then -1
    else if b == "" then 1
    else if a[0] != b[0] then (if a[0] < b[0] then -1 else 1)
    else StrCmp(a[1..], b[1..])
  }

  lemma {:induction false} StrCmpFacts(a: string, b: string)
    ensures -1 <= StrCmp(a, b) <= 1 && StrCmp(a, b) == -StrCmp(b, a)
    ensures StrCmp(a, b) == 0 <==> a == b
  {
    if a != "" && b != "" && a[0] == b[0] {
      StrCmpFacts(a[1..], b[1..]);
      assert a == [a[0]] + a[1..] && b == [b[0]] + b[1..];
    }
  }

  lemma {:induction false} StrCmpTransitive(a: string, b: string, c: string)
    requires StrCmp(a, b) <= 0 && StrCmp(b, c) <= 0
    ensures StrCmp(a, c) <= 0
  {
    if a != "" && b != "" && c != "" && a[0] == b[0] == c[0] {
      StrCmpTransitive(a[1..], b[1..], c[1..]);
    }
  }

  lemma StrCmpPreorder()
    ensures TotalPreorder(StrCmp)
  {
    forall a, b, c
      ensures StrCmp(a, a) == 0
      ensures -1 <= StrCmp(a, b) <= 1 && StrCmp(a, b) == -StrCmp(b, a)
      ensures StrCmp(a, b) <= 0 && StrCmp(b, c) <= 0 ==> StrCmp(a, c) <= 0
    {
      StrCmpFacts(a, a);
      StrCmpFacts(a, b);
      if StrCmp(a, b) <= 0 && StrCmp(b, c) <= 0 {
        StrCmpTransitive(a, b, c);
      }
    }
  }

  // ---- numbers as digit strings -------------------------------------------------------------------

  ghost predicate AllDigits(s: string) {
    forall k :: 0 <= k < |s| ==> IsDigit(s[k])
  }

  function Pow10(n: nat): (p: nat)
    ensures p > 0
  {
    if n == 0 then 1 else 10 * Pow10(n - 1)
  }

  lemma ValueSnoc(y: string)
    requires y != ""
    ensures Value(y) == 10 * Value(y[..|y| - 1]) + Ones(y[|y| - 1])
  {
  }

  lemma Shift(v: nat, p: nat, w: nat)
    ensures 10 * (v * p + w) == v * (10 * p) + 10 * w
  {
  }

  lemma DigitGap(d: nat, e: nat, p: nat, r: nat, q: nat)
    requires d < e && r < p
    ensures d * p + r < e * p + q
  {
    assert (d + 1) * p <= e * p;
  }

  lemma {:induction false} ValueConcat(x: string, y: string)
    ensures Value(x + y) == Value(x) * Pow10(|y|) + Value(y)
    decreases |y|
  {
    if y == "" {
      assert x + y == x;
    } else {
      var n := |y| - 1;
      ValueConcat(x, y[..n]);
      ValueSnoc(y);
      ValueSnoc(x + y);
      assert (x + y)[..|x + y| - 1] == x + y[..n];
      Shift(Value(x), Pow10(n), Value(y[..n]));
    }
  }

  lemma {:induction false} ValueBound(x: string)
    ensures Value(x) < Pow10(|x|)
  {
    if x != "" {
      ValueBound(x[..|x| - 1]);
    }
  }

  function Digit(c: char): nat
    requires IsDigit(c)
  {
    c as int - '0' as int
  }

  lemma ValueOfHead(x: string)
    requires x != "" && AllDigits(x)
    ensures Value(x) == Digit(x[0]) * Pow10(|x| - 1) + Value(x[1..])
  {
    ValueConcat(x[..1], x[1..]);
    assert x == x[..1] + x[1..];
    assert x[..1][..0] == "";
    assert Value(x[..1]) == Digit(x[0]);
  }

  lemma {:induction false} ValueSkipZeros(x: string, k: nat)
    requires k <= |x| && AllDigits(x) && forall i :: 0 <= i < k ==> x[i] == '0'
    ensures Value(x) == Value(x[k..])
    decreases k
  {
    if k == 0 {
      assert x[0..] == x;
    } else {
      ValueOfHead(x);
      ValueSkipZeros(x[1..], k - 1);
      assert x[1..][k - 1..] == x[k..];
    }
  }

  /** Same length: numeric order is code-point order. */
  lemma {:induction false} SameLengthNumbers(x: string, y: string)
    requires AllDigits(x) && AllDigits(y) && |x| == |y|
    ensures Sign(Value(x) - Value(y)) == StrCmp(x, y)
  {
    if x != "" {
      ValueOfHead(x);
      ValueOfHead(y);
      ValueBound(x[1..]);
      ValueBound(y[1..]);
      var dx, dy, p := Digit(x[0]), Digit(y[0]), Pow10(|x| - 1);
      if dx == dy {
        SameLengthNumbers(x[1..], y[1..]);
      } else if dx < dy {
        DigitGap(dx, dy, p, Value(x[1..]), Value(y[1..]));
      } else {
        DigitGap(dy, dx, p, Value(y[1..]), Value(x[1..]));
      }
    }
  }

  /** Without leading zeros, more digits mean a larger number. */
  lemma LongerNumber(x: string, y: string)
    requires AllDigits(x) && AllDigits(y) && |x| < |y| && y[0] != '0'
    ensures Value(x) < Value(y)
  {
    ValueBound(x);
    ValueOfHead(y);
    Pow10Monotone(|x|, |y| - 1);
    DigitGap(0, Digit(y[0]), Pow10(|y| - 1), Pow10(|y| - 1) - 1, Value(y[1..]));
  }

  lemma {:induction false} Pow10Monotone(m: nat, n: nat)
    requires m <= n
    ensures Pow10(m) <= Pow10(n)
  {
    if m < n {
      Pow10Monotone(m, n - 1);
    }
  }

  // ---- reading a key along a string -------------------------------------------------------------------

  lemma PadZeros(k: seq<int>)
    ensures LexPad([0, 0], k) == LexPad([], k) && LexPad(k, [0, 0]) == LexPad(k, [])
  {
    LexPadUnfold([0, 0], k);
    LexPadUnfold([0], Tail(k));
    LexPadUnfold([], k);
    LexPadUnfold([], Tail(k));
    LexPadUnfold(k, [0, 0]);
    LexPadUnfold(Tail(k), [0]);
    LexPadUnfold(k, []);
    LexPadUnfold(Tail(k), []);
    assert Tail([0, 0]) == [0] && Tail([0]) == [];
  }

  /** Reading on past the end changes no comparison. */
  lemma KeyIsRunKey(a: string, b: string)
    ensures LexPad(Key(a), Key(b)) == LexPad(RunKey(a), RunKey(b))
  {
    PadZeros(Key(b));
    PadZeros(RunKey(a));
    assert RunKey("") == [0, 0];
  }

  /** Two equal-weighing characters are read together. */
  lemma SkipPair(a: string, b: string)
    requires a != "" && b != "" && !IsDigit(a[0]) && !IsDigit(b[0]) && Weight(a[0]) == Weight(b[0])
    ensures LexPad(RunKey(a), RunKey(b)) == LexPad(RunKey(a[1..]), RunKey(b[1..]))
  {
    LexPadUnfold(RunKey(a), RunKey(b));
    assert Tail(RunKey(a)) == RunKey(a[1..]) && Tail(RunKey(b)) == RunKey(b[1..]);
  }

  /** What a position weighs: 0 at the end of a run. */
  function WeightAt(s: string): int {
    if s == "" || IsDigit(s[0]) then 0 else Weight(s[0])
  }

  lemma WeightsDiffer(a: string, b: string)
    requires WeightAt(a) != WeightAt(b)
    ensures LexPad(RunKey(a), RunKey(b)) == Sign(WeightAt(a) - WeightAt(b))
  {
    LexPadUnfold(RunKey(a), RunKey(b));
  }

  predicate AtNumber(s: string) { s == "" || IsDigit(s[0]) }

  /** At the end of both runs the numbers decide, or the rest does. */
  lemma NumbersNext(a: string, x: string, ra: string, b: string, y: string, rb: string)
    requires AtNumber(a) && a[..DigitRun(a)] == x && a[DigitRun(a)..] == ra
    requires AtNumber(b) && b[..DigitRun(b)] == y && b[DigitRun(b)..] == rb
    ensures LexPad(RunKey(a), RunKey(b)) ==
            if Value(x) != Value(y) then Sign(Value(x) - Value(y)) else LexPad(Key(ra), Key(rb))
  {
    RunKeyAtNumber(a);
    RunKeyAtNumber(b);
    NumberThenRest(Value(x), Key(ra), Value(y), Key(rb));
  }

  lemma RunKeyAtNumber(s: string)
    requires AtNumber(s)
    ensures RunKey(s) == [0, Value(s[..DigitRun(s)])] + Key(s[DigitRun(s)..])
  {
    if s == "" {
      assert s[DigitRun(s)..] == "";
    }
  }

  lemma NumberThenRest(x: int, ra: seq<int>, y: int, rb: seq<int>)
    ensures LexPad([0, x] + ra, [0, y] + rb) == if x != y then Sign(x - y) else LexPad(ra, rb)
  {
    LexPadUnfold([0, x] + ra, [0, y] + rb);
    assert Tail([0, x] + ra) == [x] + ra && Tail([0, y] + rb) == [y] + rb;
    LexPadUnfold([x] + ra, [y] + rb);
    assert Tail([x] + ra) == ra && Tail([y] + rb) == rb;
  }
}
