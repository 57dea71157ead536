/**
  JavaScript's `Math` helpers as the colour conversions use them, over exact
  rationals, and the bridge from a floored or rounded quotient of two
  integers to Dafny's integer division.
 */
module Numeric {

  /** `Math.floor(x)`. */
  function Floor(x: real): int {
    x.Floor
  }

  /** `Math.round(x)`: the nearest integer, halves rounded toward +infinity. */
  function Round(x: real): int {
    (x + 0.5).Floor
  }

  /** `Math.max(a, b)`. */
  function Max(a: real, b: real): real {
    if a >= b then a else b
  }

  /** `Math.min(a, b)`. */
  function Min(a: real, b: real): real {
    if a <= b then a else b
  }

  /** `Math.max(a, b, c)`. */
  function Max3(a: real, b: real, c: real): real {
    Max(a, Max(b, c))
  }

  /** `Math.min(a, b, c)`. */
  function Min3(a: real, b: real, c: real): real {
    Min(a, Min(b, c))
  }

  /** Largest of three integers. */
  function IMax3(a: int, b: int, c: int): (m: int)
    ensures m >= a && m >= b && m >= c
    ensures m == a || m == b || m == c
  {
    if a >= b && a >= c then a else if b >= c then b else c
  }

  /** Smallest of three integers. */
  function IMin3(a: int, b: int, c: int): (m: int)
    ensures m <= a && m <= b && m <= c
    ensures m == a || m == b || m == c
  {
    if a <= b && a <= c then a else if b <= c then b else c
  }

  /** Dividing by a positive constant keeps the order of two integers. */
  lemma DivideMonotone(a: int, b: int, k: real)
    requires k > 0.0
    ensures a <= b <==> a as real / k <= b as real / k
  {
    var x, y := a as real / k, b as real / k;
    assert x * k == a as real && y * k == b as real;
    assert (y - x) * k == (b - a) as real;
    if a <= b {
      assert y - x == (b - a) as real / k;
    } else {
      assert x - y == (a - b) as real / k;
    }
  }

  /** Dividing every argument by the same positive constant commutes with `Math.max`. */
  lemma Max3Scaled(a: int, b: int, c: int, k: real)
    requires k > 0.0
    ensures Max3(a as real / k, b as real / k, c as real / k) == IMax3(a, b, c) as real / k
  {
    DivideMonotone(a, b, k);
    DivideMonotone(b, c, k);
    DivideMonotone(a, c, k);
  }

  /** Dividing every argument by the same positive constant commutes with `Math.min`. */
  lemma Min3Scaled(a: int, b: int, c: int, k: real)
    requires k > 0.0
    ensures Min3(a as real / k, b as real / k, c as real / k) == IMin3(a, b, c) as real / k
  {
    DivideMonotone(a, b, k);
    DivideMonotone(b, c, k);
    DivideMonotone(a, c, k);
  }

  /** Flooring the exact quotient of two integers is integer division. */
  lemma FloorOfQuotient(a: int, b: int)
    requires b > 0
    ensures Floor(a as real / b as real) == a / b
  {
    var q, r := a / b, a % b;
    var x := a as real / b as real;
    assert a == q * b + r;
    assert a as real == q as real * b as real + r as real;
    assert x * b as real == a as real;
    assert x - q as real == r as real / b as real;
    assert 0.0 <= r as real / b as real < 1.0;
  }

  /** Rounding the exact quotient of two integers is integer division after shifting by half the divisor. */
  lemma RoundOfQuotient(a: int, b: int)
    requires b > 0
    ensures Round(a as real / b as real) == (2 * a + b) / (2 * b)
  {
    var x := a as real / b as real;
    assert x * b as real == a as real;
    assert (x + 0.5) * (2 * b) as real == (2 * a + b) as real;
    QuotientOfProduct(x + 0.5, (2 * b) as real, (2 * a + b) as real);
    FloorOfQuotient(2 * a + b, 2 * b);
  }

  /** A real quotient is the one number that multiplies back to the dividend. */
  lemma QuotientOfProduct(y: real, c: real, z: real)
    requires c != 0.0 && y * c == z
    ensures y == z / c
  {
  }

  /** A whole multiple of a quotient of integers is the quotient of the multiple. */
  lemma MultiplyQuotient(c: int, a: int, b: int)
    requires b > 0
    ensures c as real * (a as real / b as real) == (c * a) as real / b as real
  {
    var x := a as real / b as real;
    assert x * b as real == a as real;
    assert (c as real * x) * b as real == (c * a) as real;
    QuotientOfProduct(c as real * x, b as real, (c * a) as real);
  }

  /** The sign of a quotient is the sign of its dividend; a dividend of at least -b gives at least -1. */
  lemma QuotientSign(a: int, b: int)
    requires b > 0
    ensures (a as real / b as real < 0.0) == (a < 0)
    ensures a >= -b ==> a as real / b as real >= -1.0
  {
    var q := a / b;
    assert a == q * b + a % b && 0 <= a % b < b;
    FloorOfQuotient(a, b);
    if a < 0 && q >= 0 {
      MultiplyMonotone(0, q, b);
    }
    if a >= 0 && q < 0 {
      MultiplyMonotone(q, -1, b);
    }
    if a >= -b && q < -1 {
      MultiplyMonotone(q + 1, -1, b);
    }
  }

  /** Bounds on an integer quotient from bounds on the dividend. */
  lemma QuotientBounds(a: int, b: int, lo: int, hi: int)
    requires b > 0
    requires lo * b <= a < hi * b
    ensures lo <= a / b < hi
  {
    var q, r := a / b, a % b;
    assert a == q * b + r && 0 <= r < b;
    if q < lo {
      MultiplyMonotone(q + 1, lo, b);
    }
    if q >= hi {
      MultiplyMonotone(hi, q, b);
    }
  }

  /** Multiplying by a non-negative integer keeps the order of two integers. */
  lemma MultiplyMonotone(x: int, y: int, b: int)
    requires x <= y && b >= 0
    ensures x * b <= y * b
  {
    assert y * b - x * b == (y - x) * b;
  }
}
