/** Decimal rendering of natural numbers, as Python's str() does for a
    non-negative int, together with its inverse. The frame names of
    split_audio embed the frame counter through this rendering, so its
    injectivity is what makes the names of one call distinct. */
module Decimal {

  predicate IsDigit(c: char) {
    '0' <= c <= '9'
  }

  predicate AllDigits(s: string) {
    forall i :: 0 <= i < |s| ==> IsDigit(s[i])
  }

  function DigitChar(d: nat): (c: char)
    requires d < 10
    ensures IsDigit(c) && c as int - '0' as int == d
  {
    (48 + d) as char
  }

  function DigitValue(c: char): (d: nat)
    requires IsDigit(c)
    ensures d < 10 && DigitChar(d) == c
  {
    c as int - '0' as int
  }

  /** str(n) for n >= 0: the shortest decimal numeral of n. */
  function Str(n: nat): (s: string)
    ensures |s| >= 1 && AllDigits(s)
    ensures s[0] == '0' <==> n == 0
    decreases n
  {
    if n < 10 then [DigitChar(n)] else Str(n / 10) + [DigitChar(n % 10)]
  }

  /** int(s) for a string of decimal digits. */
  function Value(s: string): nat
    requires AllDigits(s)
  {
    if s == [] then 0 else 10 * Value(s[..|s| - 1]) + DigitValue(s[|s| - 1])
  }

  /** Reading back a rendered number gives the number. */
  lemma {:induction false} ValueOfStr(n: nat)
    ensures Value(Str(n)) == n
  {
    if n >= 10 {
      var s := Str(n);
      assert s[..|s| - 1] == Str(n / 10);
      ValueOfStr(n / 10);
    }
  }

  /** Different numbers render differently. */
  lemma StrInjective(m: nat, n: nat)
    ensures Str(m) == Str(n) ==> m == n
  {
    ValueOfStr(m);
    ValueOfStr(n);
  }
}
