/**
 * Integer facts shared by the modules of this model, and Java's remainder operator. Dafny's `/`
 * and `%` are Euclidean; Java's `%` takes the sign of the dividend.
 */
module Arithmetic {

  /** Euclidean division is unique: `q` and `r` are the quotient and remainder of `n` by `d`. */
  lemma DivMod(n: int, d: int, q: int, r: int)
    requires d > 0 && 0 <= r < d && n == q * d + r
    ensures n / d == q && n % d == r
  {
    var q', r' := n / d, n % d;
    assert (q - q') * d == r' - r by {
      assert n == q' * d + r';
      assert (q - q') * d == q * d - q' * d;
    }
    if q > q' {
      ProductGrows(d, q - q');
    } else if q < q' {
      assert (q' - q) * d == r - r';
      ProductGrows(d, q' - q);
    }
  }

  /** A positive multiple of `n` is at least `n`. */
  lemma ProductGrows(n: int, k: int)
    requires n > 0 && k > 0
    ensures n * k >= n && k * n >= n
  {
    assert n * k == n * (k - 1) + n;
  }

  /** Java's `%` by a positive divisor: the remainder takes the sign of the dividend. */
  function JavaRem(a: int, b: int): (r: int)
    requires b > 0
    ensures a >= 0 ==> 0 <= r < b && r == a % b
    ensures a < 0 ==> -b < r <= 0 && r == -((-a) % b)
  {
    if a >= 0 then a % b else -((-a) % b)
  }

  /**
   * Java's remainder is congruent to Dafny's: equal to it, or one divisor below it when the
   * dividend is negative and not a multiple of the divisor.
   */
  lemma JavaRemCongruent(a: int, b: int)
    requires b > 0
    ensures JavaRem(a, b) == a % b || (a < 0 && JavaRem(a, b) == a % b - b)
  {
    if a < 0 {
      var q, m := (-a) / b, (-a) % b;
      if m == 0 {
        DivMod(a, b, -q, 0);
      } else {
        DivMod(a, b, -q - 1, b - m);
      }
    }
  }

  /** Java's `/` by a positive divisor: the quotient is truncated toward zero. */
  function JavaDiv(a: int, b: int): (q: int)
    requires b > 0
    ensures a >= 0 ==> q == a / b
    ensures q * b + JavaRem(a, b) == a
  {
    if a >= 0 then a / b else -((-a) / b)
  }

  /** Java's remainder agrees with Dafny's whenever it is not negative. */
  lemma SameRemainder(a: int, b: int)
    requires b > 0 && JavaRem(a, b) >= 0
    ensures JavaRem(a, b) == a % b
  {
    if a < 0 {
      var m := (-a) % b;
      assert m == 0;
      DivMod(a, b, -((-a) / b), 0);
    }
  }
}
