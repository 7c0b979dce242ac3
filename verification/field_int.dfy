/** Residues modulo a positive integer: the `FieldInt` value object.

    A `FieldInt` is a `(value, modulus)` pair whose constructor admits only
    `0 <= value < modulus`; here that invariant is the subset-type constraint,
    so every `FieldInt` in the model is one the constructor accepted. The
    modulus is an arbitrary positive integer: nothing checks that it is prime.
 */
module FieldInts {
  import opened Results
  import opened ModArith

  datatype Residue = Residue(value: int, modulus: int)

  type FieldInt = r: Residue | 0 <= r.value < r.modulus witness Residue(0, 1)

  /** The constructor: the modulus is checked before the value. */
  function Make(value: int, modulus: int): (r: Result<FieldInt>)
    ensures r.Ok? <==> modulus > 0 && 0 <= value < modulus
    ensures r.Ok? ==> r.value.value == value && r.value.modulus == modulus
    ensures modulus <= 0 ==> r == Err(ModulusNotPositive)
    ensures modulus > 0 && !(0 <= value < modulus) ==> r == Err(ValueOutOfRange)
  {
    if modulus <= 0 then Err(ModulusNotPositive)
    else if !(0 <= value < modulus) then Err(ValueOutOfRange)
    else Ok(Residue(value, modulus))
  }

  /** `_create`: the residue of `v` under `f`'s modulus, built through the
      constructor, which cannot fail on a reduced value. */
  function Create(f: FieldInt, v: int): (r: FieldInt)
    ensures r.modulus == f.modulus
    ensures Congruent(r.value, v, f.modulus)
  {
    ModCongruent(v, f.modulus);
    Make(v % f.modulus, f.modulus).value
  }

  /** `_check`: a binary operation needs both operands on one modulus. */
  predicate SameModulus(x: FieldInt, y: FieldInt) {
    x.modulus == y.modulus
  }

  /** Two operands pass `_check` exactly when their residues of 0 coincide. */
  lemma SameModulusIffSameZero(x: FieldInt, y: FieldInt)
    ensures SameModulus(x, y) <==> Create(x, 0) == Create(y, 0)
  {
  }

  // The four operations on operands already known to share a modulus, as
  // every coordinate and coefficient of a point does.

  function Plus(x: FieldInt, y: FieldInt): (r: FieldInt)
    requires SameModulus(x, y)
    ensures r.modulus == x.modulus && Congruent(r.value, x.value + y.value, x.modulus)
  {
    Create(x, x.value + y.value)
  }

  function Minus(x: FieldInt, y: FieldInt): (r: FieldInt)
    requires SameModulus(x, y)
    ensures r.modulus == x.modulus && Congruent(r.value, x.value - y.value, x.modulus)
  {
    Create(x, x.value - y.value)
  }

  function Times(x: FieldInt, y: FieldInt): (r: FieldInt)
    requires SameModulus(x, y)
    ensures r.modulus == x.modulus && Congruent(r.value, x.value * y.value, x.modulus)
  {
    Create(x, x.value * y.value)
  }

  /** `__neg__`: needs no second operand, so it never fails. */
  function Neg(x: FieldInt): (r: FieldInt)
    ensures r.modulus == x.modulus && Congruent(r.value, -x.value, x.modulus)
  {
    Create(x, -x.value)
  }

  /** `__add__`: `_check`, then `_create` of the integer sum. */
  function Add(x: FieldInt, y: FieldInt): (r: Result<FieldInt>)
    ensures r.Ok? <==> SameModulus(x, y)
    ensures r.Err? ==> r.error == ModulusMismatch
    ensures r.Ok? ==> r.value.modulus == x.modulus && Congruent(r.value.value, x.value + y.value, x.modulus)
  {
    if !SameModulus(x, y) then Err(ModulusMismatch) else Ok(Plus(x, y))
  }

  /** `__sub__` */
  function Sub(x: FieldInt, y: FieldInt): (r: Result<FieldInt>)
    ensures r.Ok? <==> SameModulus(x, y)
    ensures r.Err? ==> r.error == ModulusMismatch
    ensures r.Ok? ==> r.value.modulus == x.modulus && Congruent(r.value.value, x.value - y.value, x.modulus)
  {
    if !SameModulus(x, y) then Err(ModulusMismatch) else Ok(Minus(x, y))
  }

  /** `__mul__` */
  function Mul(x: FieldInt, y: FieldInt): (r: Result<FieldInt>)
    ensures r.Ok? <==> SameModulus(x, y)
    ensures r.Err? ==> r.error == ModulusMismatch
    ensures r.Ok? ==> r.value.modulus == x.modulus && Congruent(r.value.value, x.value * y.value, x.modulus)
  {
    if !SameModulus(x, y) then Err(ModulusMismatch) else Ok(Times(x, y))
  }

  /** The right-hand side of `==`: Python compares a `FieldInt` with
      anything, including a plain integer such as the literal `0`. */
  datatype Operand = FieldOperand(field: FieldInt) | IntOperand(n: int)

  /** `__eq__`: structural on `(value, modulus)`, and false against any
      operand that is not a `FieldInt`, whatever its numeric value. */
  function Eq(x: FieldInt, other: Operand): (r: bool)
    ensures other.IntOperand? ==> !r
    ensures other.FieldOperand? ==> (r <==> x == other.field)
  {
    other.FieldOperand? && (x.value, x.modulus) == (other.field.value, other.field.modulus)
  }

  // ---------------------------------------------------------------------
  // Residues of integer expressions

  /** `f` is the residue of the integer `e` under `f`'s modulus. */
  predicate Denotes(f: FieldInt, e: int) {
    Congruent(f.value, e, f.modulus)
  }

  lemma DenotesSelf(f: FieldInt)
    ensures Denotes(f, f.value)
  {
    CongruentRefl(f.value, f.modulus);
  }

  lemma PlusDenotes(x: FieldInt, y: FieldInt, ex: int, ey: int)
    requires SameModulus(x, y) && Denotes(x, ex) && Denotes(y, ey)
    ensures Denotes(Plus(x, y), ex + ey)
  {
    CongruentAdd(x.value, ex, y.value, ey, x.modulus);
    CongruentTrans(Plus(x, y).value, x.value + y.value, ex + ey, x.modulus);
  }

  lemma MinusDenotes(x: FieldInt, y: FieldInt, ex: int, ey: int)
    requires SameModulus(x, y) && Denotes(x, ex) && Denotes(y, ey)
    ensures Denotes(Minus(x, y), ex - ey)
  {
    CongruentSub(x.value, ex, y.value, ey, x.modulus);
    CongruentTrans(Minus(x, y).value, x.value - y.value, ex - ey, x.modulus);
  }

  lemma TimesDenotes(x: FieldInt, y: FieldInt, ex: int, ey: int)
    requires SameModulus(x, y) && Denotes(x, ex) && Denotes(y, ey)
    ensures Denotes(Times(x, y), ex * ey)
  {
    CongruentMul(x.value, ex, y.value, ey, x.modulus);
    CongruentTrans(Times(x, y).value, x.value * y.value, ex * ey, x.modulus);
  }

  lemma NegDenotes(x: FieldInt, ex: int)
    requires Denotes(x, ex)
    ensures Denotes(Neg(x), -ex)
  {
    CongruentNeg(x.value, ex, x.modulus);
    CongruentTrans(Neg(x).value, -x.value, -ex, x.modulus);
  }

  /** Residues of two integers are equal exactly when the integers are congruent. */
  lemma DenotesEq(u: FieldInt, w: FieldInt, eu: int, ew: int)
    requires SameModulus(u, w) && Denotes(u, eu) && Denotes(w, ew)
    ensures u == w <==> Congruent(eu, ew, u.modulus)
  {
    var m := u.modulus;
    CongruentSymm(u.value, eu, m);
    if u == w {
      CongruentTrans(eu, u.value, ew, m);
    }
    if Congruent(eu, ew, m) {
      CongruentTrans(u.value, eu, ew, m);
      CongruentSymm(w.value, ew, m);
      CongruentTrans(u.value, ew, w.value, m);
      Canonical(u, w);
    }
  }

  // ---------------------------------------------------------------------
  // The ring laws, by reduction modulo the shared modulus

  /** Two elements on one modulus with congruent values are the same element. */
  lemma Canonical(u: FieldInt, w: FieldInt)
    requires u.modulus == w.modulus && Congruent(u.value, w.value, u.modulus)
    ensures u == w
  {
    CongruentInRange(u.value, w.value, u.modulus);
  }

  lemma AddCommutes(x: FieldInt, y: FieldInt)
    ensures Add(x, y) == Add(y, x)
  {
    if SameModulus(x, y) {
      var m := x.modulus;
      CongruentSymm(Plus(y, x).value, y.value + x.value, m);
      CongruentTrans(Plus(x, y).value, x.value + y.value, Plus(y, x).value, m);
      Canonical(Plus(x, y), Plus(y, x));
    }
  }

  lemma MulCommutes(x: FieldInt, y: FieldInt)
    ensures Mul(x, y) == Mul(y, x)
  {
    if SameModulus(x, y) {
      var m := x.modulus;
      CongruentSymm(Times(y, x).value, y.value * x.value, m);
      CongruentTrans(Times(x, y).value, x.value * y.value, Times(y, x).value, m);
      Canonical(Times(x, y), Times(y, x));
    }
  }

  lemma AddAssociates(x: FieldInt, y: FieldInt, z: FieldInt)
    requires SameModulus(x, y) && SameModulus(y, z)
    ensures Add(Add(x, y).value, z) == Add(x, Add(y, z).value)
  {
    var m := x.modulus;
    var l, r := Plus(Plus(x, y), z), Plus(x, Plus(y, z));
    CongruentRefl(z.value, m);
    CongruentRefl(x.value, m);
    CongruentAdd(Plus(x, y).value, x.value + y.value, z.value, z.value, m);
    CongruentTrans(l.value, Plus(x, y).value + z.value, x.value + y.value + z.value, m);
    CongruentAdd(x.value, x.value, Plus(y, z).value, y.value + z.value, m);
    CongruentTrans(r.value, x.value + Plus(y, z).value, x.value + y.value + z.value, m);
    CongruentSymm(r.value, x.value + y.value + z.value, m);
    CongruentTrans(l.value, x.value + y.value + z.value, r.value, m);
    Canonical(l, r);
  }

  lemma MulAssociates(x: FieldInt, y: FieldInt, z: FieldInt)
    requires SameModulus(x, y) && SameModulus(y, z)
    ensures Mul(Mul(x, y).value, z) == Mul(x, Mul(y, z).value)
  {
    var m := x.modulus;
    var X, Y, Z := x.value, y.value, z.value;
    var xy, yz := Times(x, y), Times(y, z);
    var l, r := Times(xy, z), Times(x, yz);
    var e := X * Y * Z;
    CongruentRefl(Z, m);
    CongruentRefl(X, m);
    CongruentMul(xy.value, X * Y, Z, Z, m);
    CongruentTrans(l.value, xy.value * Z, e, m);
    CongruentMul(X, X, yz.value, Y * Z, m);
    IntMulAssociates(X, Y, Z);
    CongruentTrans(r.value, X * yz.value, e, m);
    CongruentSymm(r.value, e, m);
    CongruentTrans(l.value, e, r.value, m);
    Canonical(l, r);
  }

  lemma IntMulAssociates(a: int, b: int, c: int)
    ensures a * (b * c) == a * b * c
  {
  }

  lemma MulDistributesOverAdd(x: FieldInt, y: FieldInt, z: FieldInt)
    requires SameModulus(x, y) && SameModulus(y, z)
    ensures Mul(x, Add(y, z).value) == Add(Mul(x, y).value, Mul(x, z).value)
  {
    var m := x.modulus;
    var l, r := Times(x, Plus(y, z)), Plus(Times(x, y), Times(x, z));
    var e := x.value * y.value + x.value * z.value;
    CongruentRefl(x.value, m);
    CongruentMul(x.value, x.value, Plus(y, z).value, y.value + z.value, m);
    assert x.value * (y.value + z.value) == e;
    CongruentTrans(l.value, x.value * Plus(y, z).value, e, m);
    CongruentAdd(Times(x, y).value, x.value * y.value, Times(x, z).value, x.value * z.value, m);
    CongruentTrans(r.value, Times(x, y).value + Times(x, z).value, e, m);
    CongruentSymm(r.value, e, m);
    CongruentTrans(l.value, e, r.value, m);
    Canonical(l, r);
  }

  /** `a + (-a)` is the zero element of `a`'s modulus. */
  lemma AddNegIsZero(x: FieldInt)
    ensures Add(x, Neg(x)) == Ok(Residue(0, x.modulus))
  {
    var m := x.modulus;
    var s := Plus(x, Neg(x));
    CongruentRefl(x.value, m);
    CongruentAdd(x.value, x.value, Neg(x).value, -x.value, m);
    CongruentTrans(s.value, x.value + Neg(x).value, 0, m);
    Canonical(s, Residue(0, m));
  }

  lemma NegInvolution(x: FieldInt)
    ensures Neg(Neg(x)) == x
  {
    var m := x.modulus;
    CongruentNeg(Neg(x).value, -x.value, m);
    CongruentTrans(Neg(Neg(x)).value, -Neg(x).value, x.value, m);
    Canonical(Neg(Neg(x)), x);
  }

  /** Subtraction is addition of the negation. */
  lemma SubIsAddNeg(x: FieldInt, y: FieldInt)
    ensures Sub(x, y) == Add(x, Neg(y))
  {
    if SameModulus(x, y) {
      var m := x.modulus;
      var l, r := Minus(x, y), Plus(x, Neg(y));
      CongruentRefl(x.value, m);
      CongruentAdd(x.value, x.value, Neg(y).value, -y.value, m);
      CongruentTrans(r.value, x.value + Neg(y).value, x.value - y.value, m);
      CongruentSymm(r.value, x.value - y.value, m);
      CongruentTrans(l.value, x.value - y.value, r.value, m);
      Canonical(l, r);
    }
  }

  // ---------------------------------------------------------------------
  // Reciprocal

  /** The value Euclid's recursion ends with, in the shape the loop below
      runs it: a common divisor (`GcdDivides`) that every common divisor
      divides (`GcdGreatest`). */
  function Gcd(x: nat, y: nat): nat
    decreases y
  {
    if y == 0 then x else Gcd(y, x % y)
  }

  lemma {:induction false} GcdDivides(x: nat, y: nat)
    requires x > 0 || y > 0
    ensures Gcd(x, y) > 0
    ensures Congruent(x, 0, Gcd(x, y)) && Congruent(y, 0, Gcd(x, y))
    decreases y
  {
    if y == 0 {
      MultipleCongruentZero(1, x);
      MultipleCongruentZero(0, x);
    } else {
      GcdDivides(y, x % y);
      var g := Gcd(x, y);
      assert x == (x / y) * y + x % y;
      CongruentRefl(x / y, g);
      CongruentMul(x / y, x / y, y, 0, g);
      CongruentAdd((x / y) * y, 0, x % y, 0, g);
    }
  }

  /** Every positive common divisor of `x` and `y` divides `Gcd(x, y)`. */
  lemma {:induction false} GcdGreatest(x: nat, y: nat, d: int)
    requires d > 0 && Congruent(x, 0, d) && Congruent(y, 0, d)
    ensures Congruent(Gcd(x, y), 0, d)
    decreases y
  {
    if y > 0 {
      var q := x / y;
      assert x % y == x - q * y;
      CongruentRefl(q, d);
      CongruentMul(q, q, y, 0, d);
      CongruentSub(x, 0, q * y, 0, d);
      GcdGreatest(y, x % y, d);
    }
  }

  /** `w` is a multiplicative inverse of `f` among the residues. */
  predicate IsInverse(f: FieldInt, w: int) {
    0 <= w < f.modulus && (f.value * w) % f.modulus == 1
  }

  /** A common divisor other than 1 rules out every inverse. */
  lemma NoInverseUnlessCoprime(f: FieldInt)
    requires Gcd(f.modulus, f.value) != 1
    ensures forall w :: !IsInverse(f, w)
  {
    var m, v := f.modulus, f.value;
    var g := Gcd(m, v);
    GcdDivides(m, v);
    forall w | IsInverse(f, w)
      ensures false
    {
      var q := (v * w) / m;
      assert v * w - q * m == 1;
      CongruentRefl(w, g);
      CongruentMul(v, 0, w, w, g);
      CongruentRefl(q, g);
      CongruentMul(q, q, m, 0, g);
      CongruentSub(v * w, 0, q * m, 0, g);
      DivModUnique(1, g, 0, 1);
      assert false;
    }
  }

  /** One round of the loop keeps `b * value` congruent to the new remainder. */
  lemma EuclidStep(a: int, b: int, x: int, y: int, v: int, m: int)
    requires m > 0 && y > 0
    requires Congruent(a * v, x, m) && Congruent(b * v, y, m)
    ensures Congruent((a - x / y * b) * v, x % y, m)
  {
    var q := x / y;
    assert x % y == x - q * y;
    CongruentRefl(q, m);
    CongruentMul(q, q, b * v, y, m);
    assert (a - q * b) * v == a * v - q * (b * v);
    CongruentSub(a * v, x, q * (b * v), q * y, m);
  }

  /** A Bezout coefficient for gcd 1, once reduced, is the inverse. */
  lemma InverseFromBezout(f: FieldInt, a: int, inv: FieldInt)
    requires f.value != 0 && Congruent(a * f.value, 1, f.modulus)
    requires inv.modulus == f.modulus && Congruent(inv.value, a, f.modulus)
    ensures IsInverse(f, inv.value)
  {
    var m := f.modulus;
    CongruentRefl(f.value, m);
    CongruentMul(f.value, f.value, inv.value, a, m);
    assert f.value * a == a * f.value;
    CongruentTrans(f.value * inv.value, a * f.value, 1, m);
    CongruentIff(f.value * inv.value, 1, m);
    DivModUnique(1, m, 0, 1);
  }

  /** `reciprocal`: the extended Euclidean algorithm on `(modulus, value)`. */
  method Reciprocal(f: FieldInt) returns (r: Result<FieldInt>)
    ensures f.value == 0 ==> r == Err(DivisionByZero)
    ensures f.value != 0 ==> (r.Ok? <==> Gcd(f.modulus, f.value) == 1)
    ensures f.value != 0 && r.Err? ==> r.error == NotCoprime && forall w :: !IsInverse(f, w)
    ensures r.Ok? ==> r.value.modulus == f.modulus && IsInverse(f, r.value.value)
  {
    if f.value == 0 {
      return Err(DivisionByZero);
    }
    var m := f.modulus;
    var x: int, y: int := m, f.value;
    var a: int, b: int := 0, 1;
    CongruentRefl(x, m);
    MultipleCongruentZero(0, m);
    CongruentRefl(y, m);
    while y != 0
      invariant 0 < x && 0 <= y
      invariant Gcd(x, y) == Gcd(m, f.value)
      invariant Congruent(a * f.value, x, m) && Congruent(b * f.value, y, m)
      decreases y
    {
      var q := x / y;
      EuclidStep(a, b, x, y, f.value, m);
      a, b := b, a - q * b;
      x, y := y, x % y;
    }
    if x == 1 {
      var inv := Create(f, a);
      InverseFromBezout(f, a, inv);
      return Ok(inv);
    } else {
      NoInverseUnlessCoprime(f);
      return Err(NotCoprime);
    }
  }
}
