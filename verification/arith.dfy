/** The two pieces of Python arithmetic the sidereal pipeline leans on, over exact
    integers and reals: `int(a / b)` for a positive divisor, which truncates the
    quotient toward zero, and the float remainder `x % 24.0`, which takes the sign
    of the divisor and so, over exact reals, lands in [0, 24). */
module Arith {

  /** True when `x` is an integer-valued real. */
  predicate IsWhole(x: real) {
    x == x.Floor as real
  }

  /** Python's `int(a / b)` for a positive divisor: the exact quotient truncated
      toward zero. The remainder `a - q * b` therefore has the sign of `a`. */
  function TruncDiv(a: int, b: int): (q: int)
    requires b > 0
    ensures a >= 0 ==> 0 <= a - q * b < b
    ensures a < 0 ==> -b < a - q * b <= 0
  {
    if a >= 0 then a / b else -((-a) / b)
  }

  /** On a non-negative numerator truncation and Dafny's Euclidean division agree. */
  lemma TruncDivNonNegative(a: int, b: int)
    requires a >= 0 && b > 0
    ensures TruncDiv(a, b) == a / b
  {
  }

  lemma MulNonNegative(x: int, y: int)
    requires x >= 0 && y >= 0
    ensures x * y >= 0
  {
  }

  /** Euclidean quotient and remainder are determined by `a == k * q + r`, `0 <= r < k`. */
  lemma DivUnique(a: int, k: int, q: int, r: int)
    requires k > 0 && 0 <= r < k && a == k * q + r
    ensures a / k == q && a % k == r
  {
    var q' := a / k;
    var r' := a % k;
    assert a == k * q' + r';
    if q' > q {
      MulNonNegative(k, q' - q - 1);
    } else if q' < q {
      MulNonNegative(k, q - q' - 1);
    }
  }

  /** Between `y - 1` and `y` the quotient by `k` grows by one exactly when `k`
      divides `y`. */
  lemma QuotientStep(y: int, k: int)
    requires y >= 1 && k > 0
    ensures y / k - (y - 1) / k == if y % k == 0 then 1 else 0
  {
    var q := (y - 1) / k;
    var r := (y - 1) % k;
    if r == k - 1 {
      DivUnique(y, k, q + 1, 0);
    } else {
      DivUnique(y, k, q, r + 1);
    }
  }

  /** Python's `x % 24.0` over exact reals: the representative of `x` modulo 24 in [0, 24). */
  function Mod24(x: real): (r: real)
    ensures 0.0 <= r < 24.0
    ensures IsWhole((x - r) / 24.0)
  {
    x - 24.0 * (x / 24.0).Floor as real
  }

  /** The reduction is unique: any `r` in [0, 24) that differs from `x` by a whole
      number of 24s is the one `Mod24` returns. */
  lemma Mod24Unique(x: real, r: real, k: int)
    requires 0.0 <= r < 24.0
    requires x == r + 24.0 * k as real
    ensures Mod24(x) == r
  {
    assert x / 24.0 == r / 24.0 + k as real;
    assert (x / 24.0).Floor == k;
  }

  /** Adding a whole number of 24s to the argument leaves the remainder unchanged. */
  lemma Mod24Shift(x: real, k: int)
    ensures Mod24(x + 24.0 * k as real) == Mod24(x)
  {
    var r := Mod24(x);
    var j := ((x - r) / 24.0).Floor;
    assert x == r + 24.0 * j as real;
    Mod24Unique(x + 24.0 * k as real, r, j + k);
  }

  /** An argument already in [0, 24) is returned unchanged. */
  lemma Mod24InRange(x: real)
    requires 0.0 <= x < 24.0
    ensures Mod24(x) == x
  {
    Mod24Unique(x, x, 0);
  }
}
