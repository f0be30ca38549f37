/** Python's `str(n)` for a non-negative integer, and reading such a string back. */
module Decimal {
  predicate IsDigit(c: char) {
    '0' <= c <= '9'
  }

  function DigitChar(d: nat): char
    requires d < 10
  {
    ('0' as int + d) as char
  }

  function DigitValue(c: char): int {
    c as int - '0' as int
  }

  /** `str(n)`: the decimal digits of `n`, most significant first, without leading zeros. */
  function NatToString(n: nat): (s: string)
    ensures |s| >= 1
    ensures forall k :: 0 <= k < |s| ==> IsDigit(s[k])
    ensures s[0] == '0' <==> n == 0
    decreases n
  {
    if n < 10 then [DigitChar(n)] else NatToString(n / 10) + [DigitChar(n % 10)]
  }

  /** The number a string of decimal digits denotes. */
  function Value(s: string): int
    decreases |s|
  {
    if s == [] then 0 else Value(s[..|s| - 1]) * 10 + DigitValue(s[|s| - 1])
  }

  function Pow10(k: nat): nat {
    if k == 0 then 1 else 10 * Pow10(k - 1)
  }

  lemma {:induction false} ValueOfNatToString(n: nat)
    ensures Value(NatToString(n)) == n
    decreases n
  {
    var s := NatToString(n);
    if n < 10 {
      assert s[..0] == [];
    } else {
      var t := NatToString(n / 10);
      assert s[..|s| - 1] == t;
      ValueOfNatToString(n / 10);
    }
  }

  /** A positive `n` has exactly |str(n)| decimal digits. */
  lemma {:induction false} DigitCountBounds(n: nat)
    requires n >= 1
    ensures Pow10(|NatToString(n)| - 1) <= n < Pow10(|NatToString(n)|)
    decreases n
  {
    if n >= 10 {
      DigitCountBounds(n / 10);
      var d := |NatToString(n / 10)|;
      assert |NatToString(n)| == d + 1;
      assert Pow10(d) == 10 * Pow10(d - 1);
      assert Pow10(d + 1) == 10 * Pow10(d);
    }
  }

  /** More lines never need fewer digits. */
  lemma {:induction false} DigitCountMonotone(n: nat, m: nat)
    requires n <= m
    ensures |NatToString(n)| <= |NatToString(m)|
    decreases m
  {
    if n >= 10 {
      DigitCountMonotone(n / 10, m / 10);
    }
  }
}
