/**
 * Decimal text of non-negative integers as JavaScript produces it when a number
 * is concatenated to a string (`'0' + i`), the `slice(-k)` of a string, and the
 * fixed-width digit strings that zero-padding followed by `slice(-k)` yields.
 */
module Decimal {

  predicate IsDigit(c: char) {
    '0' <= c <= '9'
  }

  predicate AllDigits(s: string) {
    forall i :: 0 <= i < |s| ==> IsDigit(s[i])
  }

  function DigitChar(d: nat): (c: char)
    requires d < 10
    ensures IsDigit(c) && c as int - '0' as int == d
  {
    ('0' as int + d) as char
  }

  function DigitValue(c: char): (d: nat)
    requires IsDigit(c)
    ensures d < 10 && DigitChar(d) == c
  {
    c as int - '0' as int
  }

  /** The numeric value of a string of decimal digits (most significant first). */
  function Value(s: string): nat
    requires AllDigits(s)
    decreases |s|
  {
    if s == [] then 0 else 10 * Value(s[..|s| - 1]) + DigitValue(s[|s| - 1])
  }

  /**
   * The shortest decimal form of n. This is what `String(n)` gives for the
   * numbers used here, frame indices below 2^32 and draws below 10^6;
   * JavaScript switches to exponent notation only from 10^21 on.
   */
  function ToText(n: nat): (s: string)
    ensures 1 <= |s| && AllDigits(s)
    ensures s[0] == '0' ==> n == 0
    decreases n
  {
    if n < 10 then [DigitChar(n)] else ToText(n / 10) + [DigitChar(n % 10)]
  }

  function Pow10(k: nat): (p: nat)
    ensures p >= 1
  {
    if k == 0 then 1 else 10 * Pow10(k - 1)
  }

  /** The `width` low-order decimal digits of `n`, most significant first. */
  function Fixed(n: nat, width: nat): (s: string)
    ensures |s| == width && AllDigits(s)
  {
    if width == 0 then [] else Fixed(n / 10, width - 1) + [DigitChar(n % 10)]
  }

  function Zeros(k: nat): (s: string) {
    seq(k, _ => '0')
  }

  /** JavaScript's `s.slice(-k)` for k > 0: the last k characters, or all of s when it is shorter. */
  function SliceFromEnd(s: string, k: nat): (r: string)
    requires k > 0
    ensures |r| == if |s| < k then |s| else k
    ensures r == s[|s| - |r|..]
  {
    if |s| <= k then s else s[|s| - k..]
  }

  lemma {:induction false} ValueOfToText(n: nat)
    ensures Value(ToText(n)) == n
    decreases n
  {
    if n >= 10 {
      ValueOfToText(n / 10);
      var s := ToText(n);
      assert s[..|s| - 1] == ToText(n / 10);
    }
  }

  /** A number at least 100 takes at least three digits. */
  lemma ToTextLength(n: nat)
    ensures n >= 10 ==> |ToText(n)| >= 2
    ensures n >= 100 ==> |ToText(n)| >= 3
  {
    if n >= 10 {
      var q := n / 10;
      assert |ToText(n)| == |ToText(q)| + 1;
      if n >= 100 {
        assert q >= 10;
        assert |ToText(q)| == |ToText(q / 10)| + 1;
      }
    }
  }

  lemma DivModUnique(n: int, m: int, a: int, x: int)
    requires m > 0 && 0 <= x < m && n == m * a + x
    ensures n % m == x && n / m == a
  {
    var q, r := n / m, n % m;
    assert n == m * q + r;
    var d := a - q;
    assert m * d == r - x;
    assert -m < m * d < m;
  }

  /** Splitting off the last digit: n mod 10p is 10 * ((n / 10) mod p) + (n mod 10). */
  lemma ModSplit(n: nat, p: nat)
    requires p >= 1
    ensures n % (10 * p) == 10 * ((n / 10) % p) + n % 10
  {
    var q, r := n / 10, n % 10;
    var a, b := q / p, q % p;
    assert n == 10 * q + r;
    assert q == p * a + b;
    assert n == (10 * p) * a + (10 * b + r);
    DivModUnique(n, 10 * p, a, 10 * b + r);
  }

  lemma {:induction false} ValueOfFixed(n: nat, width: nat)
    ensures Value(Fixed(n, width)) == n % Pow10(width)
  {
    if width > 0 {
      ValueOfFixed(n / 10, width - 1);
      var s := Fixed(n, width);
      assert s[..|s| - 1] == Fixed(n / 10, width - 1);
      ModSplit(n, Pow10(width - 1));
    }
  }

  lemma LastDigitUnique(a: int, b: int, c: int, d: int)
    requires 0 <= b < 10 && 0 <= d < 10 && 10 * a + b == 10 * c + d
    ensures a == c && b == d
  {
  }

  /** Two fixed-width digit strings agree exactly when the numbers agree modulo 10^width. */
  lemma {:induction false} FixedInjective(n: nat, m: nat, width: nat)
    ensures Fixed(n, width) == Fixed(m, width) <==> n % Pow10(width) == m % Pow10(width)
  {
    ValueOfFixed(n, width);
    ValueOfFixed(m, width);
    if width > 0 && n % Pow10(width) == m % Pow10(width) {
      var p := Pow10(width - 1);
      assert Pow10(width) == 10 * p;
      ModSplit(n, p);
      ModSplit(m, p);
      var a, b, c, d := (n / 10) % p, n % 10, (m / 10) % p, m % 10;
      LastDigitUnique(a, b, c, d);
      FixedInjective(n / 10, m / 10, width - 1);
      assert Fixed(n, width) == Fixed(n / 10, width - 1) + [DigitChar(b)];
      assert Fixed(m, width) == Fixed(m / 10, width - 1) + [DigitChar(d)];
    }
  }

  lemma {:induction false} FixedOfZero(width: nat)
    ensures Fixed(0, width) == Zeros(width)
  {
    if width > 0 {
      FixedOfZero(width - 1);
    }
  }

  lemma SliceSnoc(t: string, c: char, k: nat)
    requires 1 <= k <= |t| + 1
    ensures (t + [c])[|t| + 1 - k..] == t[|t| - (k - 1)..] + [c]
  {
  }

  lemma ZerosSuffix(m: nat, j: nat)
    requires j <= m
    ensures Zeros(m)[m - j..] == Zeros(j)
  {
  }

  lemma AppendAssoc(a: string, b: string, c: string)
    ensures a + (b + c) == (a + b) + c
  {
  }

  lemma {:induction false} TailOfPaddedDigit(n: nat, m: nat, k: nat)
    requires n < 10 && 1 <= k <= m + 1
    ensures (Zeros(m) + [DigitChar(n)])[m + 1 - k..] == Fixed(n, k)
  {
    assert n / 10 == 0 && n % 10 == n;
    assert Fixed(n, k) == Fixed(0, k - 1) + [DigitChar(n)];
    FixedOfZero(k - 1);
    ZerosSuffix(m, k - 1);
    SliceSnoc(Zeros(m), DigitChar(n), k);
  }

  /** The last k characters of the zero-padded decimal form are the k low-order digits. */
  lemma {:induction false} TailOfPadded(n: nat, m: nat, k: nat)
    requires k <= m + 1
    ensures |Zeros(m) + ToText(n)| >= k
    ensures (Zeros(m) + ToText(n))[|Zeros(m) + ToText(n)| - k..] == Fixed(n, k)
    decreases n
  {
    var s := Zeros(m) + ToText(n);
    if k == 0 {
      assert s[|s|..] == [];
    } else if n < 10 {
      assert ToText(n) == [DigitChar(n)];
      TailOfPaddedDigit(n, m, k);
    } else {
      var c := DigitChar(n % 10);
      var t := Zeros(m) + ToText(n / 10);
      assert ToText(n) == ToText(n / 10) + [c];
      AppendAssoc(Zeros(m), ToText(n / 10), [c]);
      assert s == t + [c];
      SliceSnoc(t, c, k);
      TailOfPadded(n / 10, m, k - 1);
      assert Fixed(n, k) == Fixed(n / 10, k - 1) + [c];
    }
  }

  /**
   * Padding the decimal form with at least k - 1 zeros and keeping the last k
   * characters gives the k low-order digits.
   */
  lemma SliceOfPadded(n: nat, m: nat, k: nat)
    requires 1 <= k <= m + 1
    ensures SliceFromEnd(Zeros(m) + ToText(n), k) == Fixed(n, k)
  {
    TailOfPadded(n, m, k);
  }

  /** The padded slice is k digits whose value is n modulo 10^k. */
  lemma PaddedSliceValue(n: nat, m: nat, k: nat)
    requires 1 <= k <= m + 1
    ensures |SliceFromEnd(Zeros(m) + ToText(n), k)| == k
    ensures AllDigits(SliceFromEnd(Zeros(m) + ToText(n), k))
    ensures Value(SliceFromEnd(Zeros(m) + ToText(n), k)) == n % Pow10(k)
  {
    SliceOfPadded(n, m, k);
    ValueOfFixed(n, k);
  }
}
