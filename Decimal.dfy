/** Decimal digit strings: the text form of non-negative integers, as
    JavaScript's number-to-string conversion and zero-padded clock fields
    produce them, with the parsers that read them back. */
module Decimal {
  import opened Arithmetic

  predicate IsDigit(c: char) { '0' <= c <= '9' }

  function DigitChar(d: nat): (c: char)
    requires d < 10
    ensures IsDigit(c) && DigitValue(c) == d
  {
    ['0', '1', '2', '3', '4', '5', '6', '7', '8', '9'][d]
  }

  function DigitValue(c: char): (d: nat)
    requires IsDigit(c)
    ensures d < 10
  {
    (c as int) - ('0' as int)
  }

  predicate AllDigits(s: string) { forall i :: 0 <= i < |s| ==> IsDigit(s[i]) }

  /** The value of a string of digits, most significant first. */
  function Parse(s: string): nat
    requires AllDigits(s)
  {
    if s == [] then 0 else Parse(s[..|s| - 1]) * 10 + DigitValue(s[|s| - 1])
  }

  /** The shortest decimal representation of n, as `String(n)` gives it. */
  function Show(n: nat): (s: string)
    ensures AllDigits(s) && |s| >= 1
    ensures |s| > 1 ==> s[0] != '0'
  {
    if n < 10 then [DigitChar(n)] else Show(n / 10) + [DigitChar(n % 10)]
  }

  /** n written in exactly `width` digits, with leading zeros (n mod 10^width). */
  function Padded(n: nat, width: nat): (s: string)
    ensures AllDigits(s) && |s| == width
  {
    if width == 0 then [] else Padded(n / 10, width - 1) + [DigitChar(n % 10)]
  }

  function Pow10(k: nat): (p: nat)
    ensures p >= 1
  {
    if k == 0 then 1 else 10 * Pow10(k - 1)
  }

  lemma {:induction false} ParseShow(n: nat)
    ensures Parse(Show(n)) == n
  {
    var s := Show(n);
    if n >= 10 {
      assert s[..|s| - 1] == Show(n / 10);
      ParseShow(n / 10);
    }
  }

  lemma {:induction false} ParsePadded(n: nat, width: nat)
    ensures Parse(Padded(n, width)) == n % Pow10(width)
  {
    if width > 0 {
      var s := Padded(n, width);
      assert s[..|s| - 1] == Padded(n / 10, width - 1);
      ParsePadded(n / 10, width - 1);
      ModPow10Step(n, width);
    }
  }

  lemma ModPow10Step(n: nat, width: nat)
    requires width > 0
    ensures n % Pow10(width) == (n / 10) % Pow10(width - 1) * 10 + n % 10
  {
    var p := Pow10(width - 1);
    var q := (n / 10) / p;
    var r := (n / 10) % p;
    assert n / 10 == q * p + r;
    assert n == (q * p + r) * 10 + n % 10;
    assert n == q * (10 * p) + (r * 10 + n % 10);
    assert 0 <= r * 10 + n % 10 < 10 * p;
    LemmaDivModUnique(n, 10 * p, q, r * 10 + n % 10);
  }

  /** Two-digit and three-digit fields read back when the value fits. */
  lemma ParsePaddedSmall(n: nat, width: nat)
    requires n < Pow10(width)
    ensures Parse(Padded(n, width)) == n
  {
    ParsePadded(n, width);
  }

  lemma LastOfTwoDigits(n: nat)
    ensures Padded(n, 2)[1] == DigitChar(n % 10)
  {
  }

  lemma FirstOfThreeDigits(n: nat)
    requires n < 1000
    ensures Padded(n, 3)[0] == DigitChar(n / 100)
  {
    var a := n / 10;
    var b := a / 10;
    assert Padded(n, 3) == Padded(a, 2) + [DigitChar(n % 10)];
    assert Padded(a, 2) == Padded(b, 1) + [DigitChar(a % 10)];
    assert Padded(b, 1) == Padded(b / 10, 0) + [DigitChar(b % 10)];
    assert n == b * 100 + ((a % 10) * 10 + n % 10);
    LemmaDivModUnique(n, 100, b, (a % 10) * 10 + n % 10);
  }
}
