/** Facts about multiplication, division and remainder that the solver does
    not find on its own. */
module Arith {

  lemma ProductNonNegative(a: int, b: int)
    requires a >= 0 && b >= 0
    ensures a * b >= 0
  {
  }

  lemma MulMono(a: int, a2: int, b: int)
    requires a <= a2 && b >= 0
    ensures a * b <= a2 * b
  {
  }

  lemma MulSucc(a: int, b: int)
    ensures (a + 1) * b == a * b + b
  {
  }

  lemma DivMulBound(t: int, b: int)
    requires b > 0
    ensures (t / b) * b <= t < (t / b) * b + b
  {
  }

  lemma MulMod(a: int, b: int)
    requires b > 0
    ensures (a * b) % b == 0
  {
    var q := (a * b) / b;
    var r := (a * b) % b;
    assert a * b == q * b + r;
    assert r == (a - q) * b;
    if a - q >= 1 {
      MulMono(1, a - q, b);
    } else if a - q <= -1 {
      MulMono(a - q, -1, b);
    }
  }

  /** A multiple of a multiple of b is a multiple of b. */
  lemma MultipleOfMultiple(m: int, s: int, b: int)
    requires b > 0 && s % b == 0
    ensures (m * s) % b == 0
  {
    var q := s / b;
    assert s == q * b;
    assert m * s == (m * q) * b;
    MulMod(m * q, b);
  }

  lemma SumOfMultiples(a: int, b: int, d: int)
    requires d > 0 && a % d == 0 && b % d == 0
    ensures (a + b) % d == 0
  {
    assert a + b == (a / d + b / d) * d;
    MulMod(a / d + b / d, d);
  }
}
