/** Go's `int` on a 64-bit machine: sums and products keep their low 64 bits. */
module Int64 {
  const MODULUS: int := 0x1_0000_0000_0000_0000
  const HALF: int := 0x8000_0000_0000_0000

  predicate Fits(x: int) {
    -HALF <= x < HALF
  }

  function Wrap(x: int): (r: int)
    ensures Fits(r)
    ensures Fits(x) ==> r == x
  {
    (x + HALF) % MODULUS - HALF
  }

  /** A value and its wrapped form differ by whole turns. */
  lemma WrapTurns(x: int)
    ensures exists k: int :: Wrap(x) == x + k * MODULUS
  {
    var k := (x + HALF) / MODULUS;
    assert Wrap(x) == x + (-k) * MODULUS;
  }

  lemma TurnsAreLost(x: int, k: int)
    ensures Wrap(x + k * MODULUS) == Wrap(x)
  {
    var y := x + HALF;
    assert y == y / MODULUS * MODULUS + y % MODULUS;
    ModUnique(y + k * MODULUS, y / MODULUS + k, y % MODULUS);
  }

  lemma ModUnique(y: int, q: int, r: int)
    requires y == q * MODULUS + r && 0 <= r < MODULUS
    ensures y % MODULUS == r
  {
  }

  /** Wrapping early does not change what a multiply-and-add wraps to. */
  lemma WrapEarly(x: int, m: int, d: int)
    ensures Wrap(Wrap(x) * m + d) == Wrap(x * m + d)
  {
    WrapTurns(x);
    var k: int :| Wrap(x) == x + k * MODULUS;
    assert Wrap(x) * m + d == (x * m + d) + (k * m) * MODULUS;
    TurnsAreLost(x * m + d, k * m);
  }

  /** Division of a truncating machine, for a positive divisor. */
  function Quotient(a: int, b: int): int
    requires b > 0
  {
    if a >= 0 then a / b else -((-a) / b)
  }

  lemma ProductsOrdered(p: int, q: int, b: int)
    requires p <= q && b >= 0
    ensures p * b <= q * b
  {
  }

  /** A quotient of non-negative numbers is found by its bounds. */
  lemma QuotientIs(a: int, b: int, q: int)
    requires b > 0 && a >= 0 && q * b <= a < (q + 1) * b
    ensures Quotient(a, b) == q
  {
    var p := a / b;
    assert p * b <= a < (p + 1) * b;
    if p < q {
      ProductsOrdered(p + 1, q, b);
    } else if q < p {
      ProductsOrdered(q + 1, p, b);
    }
  }
}
