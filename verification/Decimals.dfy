/** Decimal numbers as text. */
module Decimals {

  predicate IsDigit(c: char) {
    '0' <= c <= '9'
  }

  function Digit(d: nat): (c: char)
    requires d < 10
    ensures IsDigit(c)
  {
    "0123456789"[d]
  }

  function DigitValue(c: char): nat
    requires IsDigit(c)
  {
    (c as int) - ('0' as int)
  }

  function Decimal(n: nat): (s: string)
    ensures s != "" && forall i | 0 <= i < |s| :: IsDigit(s[i])
  {
    if n < 10 then [Digit(n)] else Decimal(n / 10) + [Digit(n % 10)]
  }

  function NumberOf(s: string): nat
    requires forall i | 0 <= i < |s| :: IsDigit(s[i])
  {
    if s == "" then 0 else 10 * NumberOf(s[..|s| - 1]) + DigitValue(s[|s| - 1])
  }

  lemma {:induction false} DecimalNumber(n: nat)
    ensures NumberOf(Decimal(n)) == n
  {
    if n < 10 {
      assert NumberOf("") == 0;
      assert [Digit(n)][..0] == "";
    } else {
      DecimalNumber(n / 10);
      assert Decimal(n)[..|Decimal(n)| - 1] == Decimal(n / 10);
    }
  }

  /** The usual notation: digits from the most significant one on, without leading zeros. */
  lemma DecimalDigits(n: nat, d: nat)
    requires d < 10
    ensures Decimal(d) == ["0123456789"[d]]
    ensures n > 0 ==> Decimal(10 * n + d) == Decimal(n) + ["0123456789"[d]]
  {
  }

  /** A number is read in the usual notation. */
  lemma NumberDigits(s: string, d: nat)
    requires d < 10 && forall i | 0 <= i < |s| :: IsDigit(s[i])
    ensures NumberOf("") == 0 && NumberOf(s + ["0123456789"[d]]) == 10 * NumberOf(s) + d
  {
    assert (s + [Digit(d)])[..|s|] == s;
  }
}
