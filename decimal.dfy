/**
 * How a template literal writes an integer: its decimal digits, with a minus
 * sign in front of a negative one. The status line of a game is built from it.
 */
module Decimal {

  predicate IsDigit(c: char) {
    '0' <= c <= '9'
  }

  predicate AllDigits(s: string) {
    forall i :: 0 <= i < |s| ==> IsDigit(s[i])
  }

  function DigitChar(d: nat): (c: char)
    requires d < 10
    ensures IsDigit(c)
  {
    (48 + d) as char
  }

  /** The decimal digits of `n`, most significant first, without leading zeros. */
  function Digits(n: nat): (s: string)
    ensures |s| > 0 && AllDigits(s)
    ensures |s| > 1 ==> s[0] != '0'
    decreases n
  {
    if n < 10 then [DigitChar(n)] else Digits(n / 10) + [DigitChar(n % 10)]
  }

  /** The number a string of decimal digits stands for. */
  function Value(s: string): nat
    requires AllDigits(s)
  {
    if s == [] then 0 else Value(s[..|s| - 1]) * 10 + (s[|s| - 1] as int - 48)
  }

  /** Reading back the digits of `n` gives `n`. */
  lemma {:induction false} ValueOfDigits(n: nat)
    ensures Value(Digits(n)) == n
    decreases n
  {
    if n >= 10 {
      var s := Digits(n);
      assert s[..|s| - 1] == Digits(n / 10);
      ValueOfDigits(n / 10);
    }
  }

  /** `${n}` for an integer `n`. */
  function Render(n: int): (s: string)
    ensures |s| > 0 && forall i :: 0 <= i < |s| ==> IsDigit(s[i]) || s[i] == '-'
    ensures IsDigit(s[0]) <==> n >= 0
  {
    if n < 0 then "-" + Digits(-n) else Digits(n)
  }

  /** A rendered integer holds no character other than digits and the minus sign. */
  lemma RenderOmits(n: int, c: char)
    requires !IsDigit(c) && c != '-'
    ensures c !in Render(n)
  {
  }

  /** Different integers are written differently. */
  lemma RenderInjective(a: int, b: int)
    requires Render(a) == Render(b)
    ensures a == b
  {
    if a < 0 && b < 0 {
      assert Render(a)[1..] == Digits(-a) && Render(b)[1..] == Digits(-b);
      ValueOfDigits(-a);
      ValueOfDigits(-b);
    } else if a >= 0 && b >= 0 {
      ValueOfDigits(a);
      ValueOfDigits(b);
    }
  }
}
