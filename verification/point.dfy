/** Projective points on a short Weierstrass curve `y^2 = x^3 + a x + b`.

    A point is either the zero point (Python's `Point` with all three
    coordinates `None`) or a projective triple `(x : y : z)`; both carry the
    curve context `(a, b, modulus)`. The constructor's check that every
    modulus agrees is the subset-type constraint of `Point`. A triple is not
    required to lie on the curve, and `z` may be zero.
 */
module Points {
  import opened Results
  import opened ModArith
  import opened FieldInts

  datatype PointRep =
    | Zero(a: FieldInt, b: FieldInt, modulus: int)
    | Proj(x: FieldInt, y: FieldInt, z: FieldInt, a: FieldInt, b: FieldInt, modulus: int)

  /** Every coordinate and coefficient lives on the point's modulus. */
  predicate ModuliAgree(p: PointRep) {
    && p.a.modulus == p.modulus
    && p.b.modulus == p.modulus
    && (p.Proj? ==> p.x.modulus == p.modulus && p.y.modulus == p.modulus && p.z.modulus == p.modulus)
  }

  type Point = p: PointRep | ModuliAgree(p) witness Zero(Residue(0, 1), Residue(0, 1), 1)

  /** The constructor. The moduli test short-circuits left to right, so an
      absent `y` or `z` is only reached (and fails as an attribute lookup on
      `None`) once the coordinates before it have passed. With `x` absent the
      point is zero and `y`, `z` are never read again. */
  function MakePoint(x: Option<FieldInt>, y: Option<FieldInt>, z: Option<FieldInt>,
                     a: FieldInt, b: FieldInt, modulus: int): (r: Result<Point>)
    ensures r.Ok? <==>
              && a.modulus == modulus && b.modulus == modulus
              && (x.Some? ==> && y.Some? && z.Some?
                              && x.value.modulus == modulus
                              && y.value.modulus == modulus
                              && z.value.modulus == modulus)
    ensures r.Ok? ==> r.value.a == a && r.value.b == b && r.value.modulus == modulus
    ensures r.Ok? ==> (r.value.Zero? <==> x.None?)
    ensures r.Ok? && x.Some? ==> r.value.x == x.value && r.value.y == y.value && r.value.z == z.value
    ensures r == Err(MissingCoordinate) <==>
              && x.Some? && x.value.modulus == modulus
              && (y.None? || (y.value.modulus == modulus && z.None?))
    ensures r.Err? ==> r.error in {MissingCoordinate, ModuliMustMatch}
  {
    if x.Some? && x.value.modulus != modulus then Err(ModuliMustMatch)
    else if x.Some? && y.None? then Err(MissingCoordinate)
    else if x.Some? && y.value.modulus != modulus then Err(ModuliMustMatch)
    else if x.Some? && z.None? then Err(MissingCoordinate)
    else if x.Some? && z.value.modulus != modulus then Err(ModuliMustMatch)
    else if a.modulus != modulus || b.modulus != modulus then Err(ModuliMustMatch)
    else if x.None? then Ok(Zero(a, b, modulus))
    else Ok(Proj(x.value, y.value, z.value, a, b, modulus))
  }

  /** `factory(x, y, z)` with coordinates on the point's modulus: the
      constructor accepts them, and the result is the triple `(x : y : z)`
      on `p`'s curve context. */
  function Factory(p: Point, x: FieldInt, y: FieldInt, z: FieldInt): (r: Point)
    requires x.modulus == p.modulus && y.modulus == p.modulus && z.modulus == p.modulus
    ensures MakePoint(Some(x), Some(y), Some(z), p.a, p.b, p.modulus).Ok?
    ensures r.Proj? && r.x == x && r.y == y && r.z == z && SameCurve(r, p)
  {
    MakePoint(Some(x), Some(y), Some(z), p.a, p.b, p.modulus).value
  }

  /** `factory(None, None, None)`: the constructor accepts it, and the
      result is the zero point of `p`'s curve context. */
  function ZeroOf(p: Point): (r: Point)
    ensures MakePoint(None, None, None, p.a, p.b, p.modulus).Ok?
    ensures r == Zero(p.a, p.b, p.modulus)
  {
    MakePoint(None, None, None, p.a, p.b, p.modulus).value
  }

  /** `is_zero` inspects `x` alone. */
  predicate IsZero(p: Point) {
    p.Zero?
  }

  /** A point is zero exactly when it is the zero point
      `factory(None, None, None)` of its own curve context. */
  lemma IsZeroIffZeroOf(p: Point)
    ensures IsZero(p) <==> p == ZeroOf(p)
  {
  }

  /** The tuple `(a, b, modulus)` that addition compares. */
  predicate SameCurve(p: Point, q: Point) {
    (p.a, p.b, p.modulus) == (q.a, q.b, q.modulus)
  }

  /** Two points share `(a, b, modulus)` exactly when their curve contexts
      have the same zero point. */
  lemma SameCurveIffSameZero(p: Point, q: Point)
    ensures SameCurve(p, q) <==> ZeroOf(p) == ZeroOf(q)
  {
  }

  /** `double` builds the constants 2 and 3 with the `FieldInt` constructor,
      which rejects them when the modulus is at most 3. */
  predicate CanDouble(p: Point) {
    p.Zero? || p.modulus > 3
  }

  /** `is_on_curve`: `y^2 z == x^3 + a x z^2 + b z^3` on residues (the cubic
      `b z^3` term, which is what makes the equation homogeneous). */
  function IsOnCurve(p: Point): (r: bool)
    ensures r <==> p.Proj? && Congruent(
                     p.y.value * p.y.value * p.z.value,
                     p.x.value * p.x.value * p.x.value
                       + p.a.value * p.x.value * p.z.value * p.z.value
                       + p.b.value * p.z.value * p.z.value * p.z.value,
                     p.modulus)
  {
    if IsZero(p) then false
    else
      var lhs := Times(Times(p.y, p.y), p.z);
      var rhs := Plus(Plus(Times(Times(p.x, p.x), p.x),
                           Times(Times(Times(p.a, p.x), p.z), p.z)),
                      Times(Times(Times(p.b, p.z), p.z), p.z));
      CurveEquationResidues(p, lhs, rhs);
      Eq(lhs, FieldOperand(rhs))
  }

  lemma CurveEquationResidues(p: Point, lhs: FieldInt, rhs: FieldInt)
    requires p.Proj?
    requires lhs == Times(Times(p.y, p.y), p.z)
    requires rhs == Plus(Plus(Times(Times(p.x, p.x), p.x),
                              Times(Times(Times(p.a, p.x), p.z), p.z)),
                         Times(Times(Times(p.b, p.z), p.z), p.z))
    ensures lhs == rhs <==> Congruent(
              p.y.value * p.y.value * p.z.value,
              p.x.value * p.x.value * p.x.value
                + p.a.value * p.x.value * p.z.value * p.z.value
                + p.b.value * p.z.value * p.z.value * p.z.value,
              p.modulus)
  {
    var x, y, z, a, b := p.x, p.y, p.z, p.a, p.b;
    var X, Y, Z, A, B := x.value, y.value, z.value, a.value, b.value;
    DenotesSelf(x); DenotesSelf(y); DenotesSelf(z); DenotesSelf(a); DenotesSelf(b);
    TimesDenotes(y, y, Y, Y);
    TimesDenotes(Times(y, y), z, Y * Y, Z);
    TimesDenotes(x, x, X, X);
    TimesDenotes(Times(x, x), x, X * X, X);
    TimesDenotes(a, x, A, X);
    TimesDenotes(Times(a, x), z, A * X, Z);
    TimesDenotes(Times(Times(a, x), z), z, A * X * Z, Z);
    TimesDenotes(b, z, B, Z);
    TimesDenotes(Times(b, z), z, B * Z, Z);
    TimesDenotes(Times(Times(b, z), z), z, B * Z * Z, Z);
    PlusDenotes(Times(Times(x, x), x), Times(Times(Times(a, x), z), z), X * X * X, A * X * Z * Z);
    PlusDenotes(Plus(Times(Times(x, x), x), Times(Times(Times(a, x), z), z)),
                Times(Times(Times(b, z), z), z),
                X * X * X + A * X * Z * Z, B * Z * Z * Z);
    DenotesEq(lhs, rhs, Y * Y * Z, X * X * X + A * X * Z * Z + B * Z * Z * Z);
  }

  /** `double`. The guard `self.y == 0` compares a `FieldInt` with the
      integer 0 and is therefore never true: only the zero point doubles to
      zero, and a triple with `y` congruent to 0 goes through the formula. */
  function Double(p: Point): (r: Result<Point>)
    ensures r.Ok? <==> CanDouble(p)
    ensures r.Err? ==> r.error == ValueOutOfRange
    ensures r.Ok? ==> SameCurve(r.value, p) && (r.value.Zero? <==> p.Zero?)
  {
    if IsZero(p) || Eq(p.y, IntOperand(0)) then Ok(ZeroOf(p))
    else
      var two :- Make(2, p.modulus);
      var three :- Make(3, p.modulus);
      var t := Plus(Times(Times(p.x, p.x), three), Times(Times(p.a, p.z), p.z));
      var u := Times(Times(p.y, p.z), two);
      var v := Times(Times(Times(u, p.x), p.y), two);
      var w := Minus(Times(t, t), Times(v, two));
      Ok(Factory(p,
                 Times(u, w),
                 Minus(Times(t, Minus(v, w)), Times(Times(Times(Times(u, u), p.y), p.y), two)),
                 Times(Times(u, u), u)))
  }

  /** `__add__`: parameter check, zero absorption, then the three-way
      tie-break on the cross terms. */
  function Add(p: Point, q: Point): (r: Result<Point>)
    ensures !SameCurve(p, q) ==> r == Err(CurveMismatch)
    ensures SameCurve(p, q) && p.Zero? ==> r == Ok(q)
    ensures SameCurve(p, q) && q.Zero? ==> r == Ok(p)
    ensures SameCurve(p, q) && CanDouble(p) ==> r.Ok?
    ensures r.Ok? ==> SameCurve(r.value, p)
    ensures r.Err? ==> r.error in {CurveMismatch, ValueOutOfRange}
  {
    if !SameCurve(p, q) then Err(CurveMismatch)
    else if IsZero(p) then Ok(q)
    else if IsZero(q) then Ok(p)
    else
      var t0 := Times(p.y, q.z);
      var t1 := Times(q.y, p.z);
      var u0 := Times(p.x, q.z);
      var u1 := Times(q.x, p.z);
      if Eq(u0, FieldOperand(u1)) then
        if Eq(t0, FieldOperand(t1)) then Double(p) else Ok(ZeroOf(p))
      else
        var t := Minus(t0, t1);
        var u := Minus(u0, u1);
        var u2 := Times(u, u);
        var v := Times(p.z, q.z);
        var w := Minus(Times(Times(t, t), v), Times(u2, Plus(u0, u1)));
        var u3 := Times(u, u2);
        Ok(Factory(p,
                   Times(u, w),
                   Minus(Times(t, Minus(Times(u0, u2), w)), Times(t0, u3)),
                   Times(u3, v)))
  }

  /** `__neg__`: zero is its own negation; otherwise only `y` is negated. */
  function Neg(p: Point): (r: Point)
    ensures SameCurve(r, p) && (r.Zero? <==> p.Zero?)
    ensures r.Proj? ==> r.x == p.x && r.z == p.z && Congruent(r.y.value, -p.y.value, p.modulus)
  {
    if IsZero(p) then p else Factory(p, p.x, FieldInts.Neg(p.y), p.z)
  }

  /** `__sub__`: `self + -other`. */
  function Sub(p: Point, q: Point): (r: Result<Point>)
    ensures !SameCurve(p, q) ==> r == Err(CurveMismatch)
    ensures SameCurve(p, q) && q.Zero? ==> r == Ok(p)
    ensures SameCurve(p, q) && p.Zero? ==> r == Ok(Neg(q))
    ensures r.Ok? ==> SameCurve(r.value, p)
  {
    Add(p, Neg(q))
  }

  /** `__eq__`: zero points are equal to each other (whatever their curve)
      and to nothing else; two triples compare their cross products, which
      multiplies coordinates across the two points and so fails when the
      moduli differ. */
  function Equal(p: Point, q: Point): (r: Result<bool>)
    ensures p.Zero? || q.Zero? ==> r == Ok(p.Zero? && q.Zero?)
    ensures p.Proj? && q.Proj? ==> (r.Err? <==> p.modulus != q.modulus)
    ensures r.Err? ==> r.error == ModulusMismatch
    ensures p.Proj? && q.Proj? && r.Ok? ==>
              (r.value <==> && SameCurve(p, q)
                            && Congruent(p.x.value * q.z.value, q.x.value * p.z.value, p.modulus)
                            && Congruent(p.y.value * q.z.value, q.y.value * p.z.value, p.modulus))
  {
    if IsZero(p) || IsZero(q) then Ok(IsZero(p) && IsZero(q))
    else
      // The first product raises on differing moduli; once it has
      // succeeded the other three share its modulus and cannot fail.
      var xl := FieldInts.Mul(p.x, q.z);
      if xl.Err? then Err(xl.error)
      else
        CrossProductResidues(p, q);
        Ok(&& Eq(xl.value, FieldOperand(Times(q.x, p.z)))
           && Eq(Times(p.y, q.z), FieldOperand(Times(q.y, p.z)))
           && p.a == q.a && p.b == q.b && p.modulus == q.modulus)
  }

  /** The cross products agree as residues exactly when they agree as integers modulo `m`. */
  lemma CrossProductResidues(p: Point, q: Point)
    requires p.Proj? && q.Proj? && p.modulus == q.modulus
    ensures (Times(p.x, q.z) == Times(q.x, p.z))
            <==> Congruent(p.x.value * q.z.value, q.x.value * p.z.value, p.modulus)
    ensures (Times(p.y, q.z) == Times(q.y, p.z))
            <==> Congruent(p.y.value * q.z.value, q.y.value * p.z.value, p.modulus)
  {
    DenotesSelf(p.x); DenotesSelf(p.y); DenotesSelf(p.z);
    DenotesSelf(q.x); DenotesSelf(q.y); DenotesSelf(q.z);
    TimesDenotes(p.x, q.z, p.x.value, q.z.value);
    TimesDenotes(q.x, p.z, q.x.value, p.z.value);
    TimesDenotes(p.y, q.z, p.y.value, q.z.value);
    TimesDenotes(q.y, p.z, q.y.value, p.z.value);
    DenotesEq(Times(p.x, q.z), Times(q.x, p.z), p.x.value * q.z.value, q.x.value * p.z.value);
    DenotesEq(Times(p.y, q.z), Times(q.y, p.z), p.y.value * q.z.value, q.y.value * p.z.value);
  }
}
