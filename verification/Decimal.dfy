/** Decimal printing of natural numbers. */
module Decimal {

  const DIGITS := "0123456789"

  function Itoa(n: nat): (s: string)
    ensures s != ""
  {
    if n < 10 then [DIGITS[n]] else Itoa(n / 10) + [DIGITS[n % 10]]
  }

  predicate IsDigit(c: char) {
    '0' <= c <= '9'
  }

  lemma DigitsDiffer(a: nat, b: nat)
    requires a < 10 && b < 10
    ensures DIGITS[a] == DIGITS[b] <==> a == b
    ensures IsDigit(DIGITS[a])
  {
  }

  lemma {:induction false} AllDigits(n: nat)
    ensures forall i :: 0 <= i < |Itoa(n)| ==> IsDigit(Itoa(n)[i])
  {
    DigitsDiffer(n % 10, n % 10);
    if n >= 10 {
      AllDigits(n / 10);
    }
  }

  /** The number that a sequence of digits denotes. */
  function Atoi(s: string): int {
    if s == "" then 0 else 10 * Atoi(s[..|s| - 1]) + (s[|s| - 1] as int - '0' as int)
  }

  /** Numbers below ten are printed as one digit, and a further digit multiplies by ten. */
  lemma ItoaDigits(n: nat, d: nat)
    requires d < 10
    ensures Itoa(d) == ["0123456789"[d]]
    ensures n > 0 ==> Itoa(10 * n + d) == Itoa(n) + Itoa(d)
  {
  }

  /** Reading a printed number gives it back, so different numbers print differently. */
  lemma {:induction false} AtoiOfItoa(n: nat)
    ensures Atoi(Itoa(n)) == n
  {
    var d := n % 10;
    assert DIGITS[d] as int - '0' as int == d;
    if n < 10 {
      assert Itoa(n)[..0] == "";
    } else {
      AtoiOfItoa(n / 10);
      assert Itoa(n)[..|Itoa(n)| - 1] == Itoa(n / 10);
    }
  }
}
