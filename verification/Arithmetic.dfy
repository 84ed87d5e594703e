/** The few facts about products and integer division the models rest on. */
module Arithmetic {
  lemma MulMonotone(a: int, b: int, c: int)
    requires a <= b && c >= 0
    ensures a * c <= b * c && c * a <= c * b
  {
    assert (b - a) * c >= 0;
  }

  lemma DivisionIsExact(n: nat, d: nat)
    requires d > 0
    ensures n == (n / d) * d + n % d && 0 <= n % d < d
  {
  }

  lemma DivisionIsNatural(n: nat, d: nat)
    requires d > 0
    ensures n / d >= 0
  {
    if n / d < 0 {
      MulMonotone(n / d, -1, d);
    }
  }

  lemma DivisionIsUnique(n: nat, d: nat, q: nat, r: nat)
    requires d > 0 && n == q * d + r && r < d
    ensures n / d == q && n % d == r
  {
    var quotient := n / d;
    DivisionIsExact(n, d);
    if quotient > q {
      MulMonotone(q + 1, quotient, d);
    } else if quotient < q {
      MulMonotone(quotient + 1, q, d);
    }
  }

  lemma ExactQuotient(d: nat, q: nat)
    requires d > 0
    ensures d * q / d == q
  {
    DivisionIsUnique(d * q, d, q, 0);
  }

  /** Long division, one decimal digit further. */
  lemma DigitStep(value: nat, divisor: nat)
    requires divisor > 0
    ensures 10 * value / divisor == 10 * (value / divisor) + 10 * (value % divisor) / divisor
    ensures 10 * value % divisor == 10 * (value % divisor) % divisor
  {
    var q, r := value / divisor, value % divisor;
    DivisionIsExact(value, divisor);
    assert value == q * divisor + r;
    LongDivision(value, divisor, q, r, 10 * r / divisor, 10 * r % divisor);
  }

  lemma LongDivision(value: nat, divisor: nat, q: nat, r: nat, digit: nat, rest: nat)
    requires divisor > 0 && value == q * divisor + r
    requires digit == 10 * r / divisor && rest == 10 * r % divisor
    ensures 10 * value / divisor == 10 * q + digit
    ensures 10 * value % divisor == rest
  {
    DivisionIsExact(10 * r, divisor);
    assert (10 * q + digit) * divisor == 10 * (q * divisor) + digit * divisor;
    DivisionIsUnique(10 * value, divisor, 10 * q + digit, rest);
  }
}
