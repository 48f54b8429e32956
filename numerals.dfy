/** Decimal text of natural numbers, as JavaScript's and Python's string conversions print them. */
module Numerals {

  function DigitChar(d: nat): char
    requires d < 10
  {
    ('0' as int + d) as char
  }

  /** A natural number in decimal, as JavaScript prints it. */
  function Decimal(n: nat): (s: string)
    ensures s != [] && forall i :: 0 <= i < |s| ==> '0' <= s[i] <= '9'
    ensures n < 10 <==> |s| == 1
  {
    if n < 10 then [DigitChar(n)] else Decimal(n / 10) + [DigitChar(n % 10)]
  }

  /** Distinct numbers print differently. */
  lemma {:induction false} DecimalInjective(i: nat, j: nat)
    requires i != j
    ensures Decimal(i) != Decimal(j)
    decreases i
  {
    if i >= 10 && j >= 10 {
      if i / 10 != j / 10 {
        DecimalInjective(i / 10, j / 10);
        var a, b := Decimal(i / 10), Decimal(j / 10);
        if |a| == |b| {
          assert Decimal(i)[..|a|] == a && Decimal(j)[..|b|] == b;
        }
      } else {
        assert Decimal(i)[|Decimal(i)| - 1] == DigitChar(i % 10);
        assert Decimal(j)[|Decimal(j)| - 1] == DigitChar(j % 10);
      }
    }
  }
}
