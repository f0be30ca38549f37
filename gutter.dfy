/** The width of the line-number gutter. */
module LineGutter {
  import opened Decimal

  /** `len(str(line_count))`. */
  function Digits(lineCount: nat): (d: nat)
    ensures d >= 1
    ensures lineCount >= 1 ==> Pow10(d - 1) <= lineCount < Pow10(d)
  {
    if lineCount >= 1 then DigitCountBounds(lineCount); |NatToString(lineCount)|
    else |NatToString(lineCount)|
  }

  /** Pixel width of the gutter: one measured digit width per digit, plus 10. */
  function GutterWidth(digitWidth: nat, lineCount: nat): (w: nat)
    ensures w >= digitWidth + 10
  {
    MulAtLeast(digitWidth, Digits(lineCount));
    digitWidth * Digits(lineCount) + 10
  }

  lemma MulAtLeast(a: nat, d: nat)
    requires d >= 1
    ensures a * d >= a
  {
  }

  /** The gutter never narrows when the line count grows. */
  lemma GutterWidthMonotone(digitWidth: nat, n: nat, m: nat)
    requires n <= m
    ensures GutterWidth(digitWidth, n) <= GutterWidth(digitWidth, m)
  {
    DigitCountMonotone(n, m);
    MulMonotone(digitWidth, Digits(n), Digits(m));
  }

  lemma {:induction false} MulMonotone(a: nat, x: nat, y: nat)
    requires x <= y
    ensures a * x <= a * y
    decreases y - x
  {
    if x < y {
      MulMonotone(a, x, y - 1);
      assert a * y == a * (y - 1) + a;
    }
  }
}
