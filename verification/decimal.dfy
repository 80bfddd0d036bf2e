/**
 * Decimal text of non-negative integers: Python's `str(n)` (used when the
 * counts are interpolated into the event summary) and the zero-padded fields
 * `strftime` writes for `%Y`, `%m`, `%d`, `%H`, `%M` and `%S`. FromDecimal
 * reads such text back, so every writer here comes with its inverse.
 */
module Decimal {
  import opened Arith

  predicate IsDigit(c: char) {
    '0' <= c <= '9'
  }

  predicate IsDigits(s: string) {
    forall i :: 0 <= i < |s| ==> IsDigit(s[i])
  }

  function DigitChar(n: int): char
    requires 0 <= n < 10
  {
    ('0' as int + n) as char
  }

  function DigitValue(c: char): int
    requires IsDigit(c)
  {
    c as int - '0' as int
  }

  function Pow10(k: nat): nat {
    if k == 0 then 1 else 10 * Pow10(k - 1)
  }

  /** The number a string of decimal digits denotes; leading zeros add nothing */
  function FromDecimal(s: string): nat
    requires IsDigits(s)
  {
    if |s| == 0 then 0 else 10 * FromDecimal(s[..|s| - 1]) + DigitValue(s[|s| - 1])
  }

  /** Python's `str(n)` for n >= 0: the shortest decimal text of n */
  function ToDecimal(n: nat): (s: string)
    ensures 1 <= |s| && IsDigits(s)
    ensures s[0] == '0' <==> n == 0
    ensures n == 0 ==> s == "0"
    ensures FromDecimal(s) == n
  {
    if n < 10 then [DigitChar(n)]
    else
      var prefix := ToDecimal(n / 10);
      var s := prefix + [DigitChar(n % 10)];
      assert s[..|s| - 1] == prefix;
      s
  }

  function Zeros(k: nat): (s: string)
    ensures |s| == k && forall i :: 0 <= i < k ==> s[i] == '0'
  {
    if k == 0 then "" else Zeros(k - 1) + "0"
  }

  /** n written with at least `width` digits, padded with leading zeros */
  function ZeroPad(n: nat, width: nat): (s: string)
    ensures IsDigits(s) && FromDecimal(s) == n
    ensures 1 <= width && n < Pow10(width) ==> |s| == width
  {
    var digits := ToDecimal(n);
    if |digits| < width then
      FromDecimalAppend(Zeros(width - |digits|), digits);
      FromDecimalZeros(width - |digits|);
      Zeros(width - |digits|) + digits
    else
      assert n < Pow10(width) ==> width == 0 || |digits| <= width by {
        if n < Pow10(width) {
          DecimalLength(n, width);
        }
      }
      digits
  }

  // ---------------------------------------------------------------------
  // Lemmas
  // ---------------------------------------------------------------------

  lemma DigitsAppend(a: string, b: string)
    requires IsDigits(a) && IsDigits(b)
    ensures IsDigits(a + b)
  {
    var ab := a + b;
    forall i | 0 <= i < |ab|
      ensures IsDigit(ab[i])
    {
      if i < |a| {
        assert ab[i] == a[i];
      } else {
        assert ab[i] == b[i - |a|];
      }
    }
  }

  /** Reading a concatenation shifts the first part left by the second's length */
  lemma {:induction false} FromDecimalAppend(a: string, b: string)
    requires IsDigits(a) && IsDigits(b)
    ensures IsDigits(a + b)
    ensures FromDecimal(a + b) == FromDecimal(a) * Pow10(|b|) + FromDecimal(b)
  {
    DigitsAppend(a, b);
    var ab := a + b;
    if |b| == 0 {
      assert ab == a;
    } else {
      var b' := b[..|b| - 1];
      var v := DigitValue(b[|b| - 1]);
      assert ab[..|ab| - 1] == a + b';
      assert ab[|ab| - 1] == b[|b| - 1];
      DigitsAppend(a, b');
      assert FromDecimal(ab) == 10 * FromDecimal(a + b') + v;
      FromDecimalAppend(a, b');
      var x, p, y := FromDecimal(a), Pow10(|b'|), FromDecimal(b');
      assert FromDecimal(b) == 10 * y + v;
      assert Pow10(|b|) == 10 * p;
      MulTen(x, p);
      assert FromDecimal(ab) == x * Pow10(|b|) + FromDecimal(b);
    }
  }

  lemma {:induction false} FromDecimalZeros(k: nat)
    ensures IsDigits(Zeros(k)) && FromDecimal(Zeros(k)) == 0
  {
    if k > 0 {
      assert Zeros(k)[..k - 1] == Zeros(k - 1);
      FromDecimalZeros(k - 1);
    }
  }

  /** A number below 10^k needs at most k digits */
  lemma {:induction false} DecimalLength(n: nat, k: nat)
    requires n < Pow10(k)
    ensures k == 0 || |ToDecimal(n)| <= k
  {
    if k > 0 && n >= 10 {
      DecimalLength(n / 10, k - 1);
    }
  }

  /** Digits without a superfluous leading zero are the `str` of the number they denote */
  lemma {:induction false} CanonicalDecimal(d: string)
    requires IsDigits(d) && 1 <= |d| && (d[0] == '0' ==> |d| == 1)
    ensures ToDecimal(FromDecimal(d)) == d
  {
    var v := DigitValue(d[|d| - 1]);
    var d' := d[..|d| - 1];
    assert FromDecimal(d) == 10 * FromDecimal(d') + v;
    if |d| == 1 {
      assert d == [DigitChar(v)];
    } else {
      assert d'[0] == d[0];
      CanonicalDecimal(d');
      var m := FromDecimal(d');
      assert m != 0;
      DivModUnique(FromDecimal(d), 10, m, v);
      assert d == d' + [DigitChar(v)];
    }
  }

  /** Length of the run of digits s starts with */
  function DigitRun(s: string): (k: nat)
    ensures k <= |s| && IsDigits(s[..k])
    ensures k < |s| ==> !IsDigit(s[k])
  {
    if |s| == 0 || !IsDigit(s[0]) then 0
    else
      var k := 1 + DigitRun(s[1..]);
      assert s[..k] == [s[0]] + s[1..][..k - 1];
      k
  }

  /** The digit run of digits followed by a non-digit is exactly those digits */
  lemma DigitRunOf(d: string, rest: string)
    requires IsDigits(d) && (|rest| == 0 || !IsDigit(rest[0]))
    ensures DigitRun(d + rest) == |d|
  {
    var s, k := d + rest, DigitRun(d + rest);
    assert forall i :: 0 <= i < |d| ==> s[i] == d[i];
    assert |rest| > 0 ==> s[|d|] == rest[0];
  }

  /** Digit strings of the same length that denote the same number are the same string */
  lemma {:induction false} FixedWidthInjective(a: string, b: string)
    requires IsDigits(a) && IsDigits(b) && |a| == |b|
    requires FromDecimal(a) == FromDecimal(b)
    ensures a == b
  {
    if |a| > 0 {
      var a', b' := a[..|a| - 1], b[..|b| - 1];
      var x, y := DigitValue(a[|a| - 1]), DigitValue(b[|b| - 1]);
      assert FromDecimal(a) == 10 * FromDecimal(a') + x;
      assert FromDecimal(b) == 10 * FromDecimal(b') + y;
      DivModUnique(FromDecimal(a), 10, FromDecimal(a'), x);
      DivModUnique(FromDecimal(b), 10, FromDecimal(b'), y);
      FixedWidthInjective(a', b');
      assert a == a' + [a[|a| - 1]] && b == b' + [b[|b| - 1]];
    }
  }
}
