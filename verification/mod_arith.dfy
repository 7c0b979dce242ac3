/** Congruence modulo a positive integer, and the facts about Dafny's `%`
    that the field arithmetic rests on.

    For a positive divisor Dafny's `%` and `/` agree with Python's `%` and
    `//`, so these lemmas speak about the source's reductions directly.
 */
module ModArith {

  /** `x` and `y` leave the same remainder modulo `m`. */
  predicate Congruent(x: int, y: int, m: int)
    requires m > 0
  {
    (x - y) % m == 0
  }

  lemma MulAtLeast(k: int, m: int)
    requires k >= 1 && m > 0
    ensures k * m >= m
  {
    assert k * m == (k - 1) * m + m;
  }

  /** Quotient and remainder are the only pair with `y == q * m + r`, `0 <= r < m`. */
  lemma DivModUnique(y: int, m: int, q: int, r: int)
    requires m > 0 && 0 <= r < m && y == q * m + r
    ensures y / m == q && y % m == r
  {
    var q', r' := y / m, y % m;
    assert y == q' * m + r';
    if q' > q {
      assert (q' - q) * m == r - r';
      MulAtLeast(q' - q, m);
      assert false;
    } else if q' < q {
      assert (q - q') * m == r' - r;
      MulAtLeast(q - q', m);
      assert false;
    }
  }

  lemma ModAddMultiple(x: int, k: int, m: int)
    requires m > 0
    ensures (x + k * m) % m == x % m
  {
    DivModUnique(x + k * m, m, x / m + k, x % m);
  }

  /** A number and its remainder are congruent. */
  lemma ModCongruent(x: int, m: int)
    requires m > 0
    ensures Congruent(x % m, x, m)
  {
    assert x % m - x == -(x / m) * m;
    ModAddMultiple(0, -(x / m), m);
  }

  /** Congruence is equality of remainders. */
  lemma CongruentIff(x: int, y: int, m: int)
    requires m > 0
    ensures Congruent(x, y, m) <==> x % m == y % m
  {
    var d := x - y;
    assert x == d + (y / m) * m + y % m;
    if (x - y) % m == 0 {
      assert d == (d / m) * m;
      DivModUnique(x, m, d / m + y / m, y % m);
    }
    if x % m == y % m {
      assert d == (x / m - y / m) * m;
      DivModUnique(d, m, x / m - y / m, 0);
    }
  }

  /** Two numbers in `[0, m)` that are congruent are equal. */
  lemma CongruentInRange(x: int, y: int, m: int)
    requires m > 0 && 0 <= x < m && 0 <= y < m && Congruent(x, y, m)
    ensures x == y
  {
    CongruentIff(x, y, m);
    DivModUnique(x, m, 0, x);
    DivModUnique(y, m, 0, y);
  }

  lemma CongruentRefl(x: int, m: int)
    requires m > 0
    ensures Congruent(x, x, m)
  {
    CongruentIff(x, x, m);
  }

  lemma CongruentSymm(x: int, y: int, m: int)
    requires m > 0 && Congruent(x, y, m)
    ensures Congruent(y, x, m)
  {
    CongruentIff(x, y, m);
    CongruentIff(y, x, m);
  }

  lemma CongruentTrans(x: int, y: int, z: int, m: int)
    requires m > 0 && Congruent(x, y, m) && Congruent(y, z, m)
    ensures Congruent(x, z, m)
  {
    CongruentIff(x, y, m);
    CongruentIff(y, z, m);
    CongruentIff(x, z, m);
  }

  lemma CongruentAdd(x: int, x': int, y: int, y': int, m: int)
    requires m > 0 && Congruent(x, x', m) && Congruent(y, y', m)
    ensures Congruent(x + y, x' + y', m)
  {
    var p, q := (x - x') / m, (y - y') / m;
    assert x - x' == p * m;
    assert y - y' == q * m;
    assert (x + y) - (x' + y') == (p + q) * m;
    ModAddMultiple(0, p + q, m);
  }

  lemma CongruentNeg(x: int, x': int, m: int)
    requires m > 0 && Congruent(x, x', m)
    ensures Congruent(-x, -x', m)
  {
    var p := (x - x') / m;
    assert x - x' == p * m;
    assert -x - -x' == (-p) * m;
    ModAddMultiple(0, -p, m);
  }

  lemma CongruentSub(x: int, x': int, y: int, y': int, m: int)
    requires m > 0 && Congruent(x, x', m) && Congruent(y, y', m)
    ensures Congruent(x - y, x' - y', m)
  {
    CongruentNeg(y, y', m);
    CongruentAdd(x, x', -y, -y', m);
  }

  lemma CongruentMul(x: int, x': int, y: int, y': int, m: int)
    requires m > 0 && Congruent(x, x', m) && Congruent(y, y', m)
    ensures Congruent(x * y, x' * y', m)
  {
    var p, q := (x - x') / m, (y - y') / m;
    assert x == x' + p * m;
    assert y == y' + q * m;
    assert x * y - x' * y' == (p * y' + x' * q + p * q * m) * m;
    ModAddMultiple(0, p * y' + x' * q + p * q * m, m);
  }

  /** A multiple of `m` is congruent to zero. */
  lemma MultipleCongruentZero(k: int, m: int)
    requires m > 0
    ensures Congruent(k * m, 0, m)
  {
    ModAddMultiple(0, k, m);
  }
}
