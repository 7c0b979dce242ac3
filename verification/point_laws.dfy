/** What the point operations promise, stated over the integers: the
    tie-break of `__add__`, the doubling and addition formulas as integer
    polynomials reduced modulo `m`, negation, and projective equality.
 */
module PointLaws {
  import opened Results
  import opened ModArith
  import opened FieldInts
  import opened Points

  /** The addition formula over the integers, before reduction. */
  function AddCoordinates(x1: int, y1: int, z1: int, x2: int, y2: int, z2: int): (int, int, int) {
    var t0, t1, u0, u1 := y1 * z2, y2 * z1, x1 * z2, x2 * z1;
    var t, u := t0 - t1, u0 - u1;
    var u2, v := u * u, z1 * z2;
    var w := t * t * v - u2 * (u0 + u1);
    var u3 := u * u2;
    (u * w, t * (u0 * u2 - w) - t0 * u3, u3 * v)
  }

  /** The doubling formula over the integers, before reduction. */
  function DoubleCoordinates(x: int, y: int, z: int, a: int): (int, int, int) {
    var t := x * x * 3 + a * z * z;
    var u := y * z * 2;
    var v := u * x * y * 2;
    var w := t * t - v * 2;
    (u * w, t * (v - w) - u * u * y * y * 2, u * u * u)
  }

  /** A triple whose coordinates are the residues of the integer triple `c`. */
  predicate DenotesTriple(r: Point, c: (int, int, int)) {
    r.Proj? && Denotes(r.x, c.0) && Denotes(r.y, c.1) && Denotes(r.z, c.2)
  }

  /** Doubling a triple over a modulus above 3 yields the residues of the
      doubling polynomials in the input coordinates. */
  lemma DoubleFormula(p: Point)
    requires p.Proj? && p.modulus > 3
    ensures Double(p).Ok?
    ensures DenotesTriple(Double(p).value, DoubleCoordinates(p.x.value, p.y.value, p.z.value, p.a.value))
  {
    hide Double, Times, Plus, Minus, Denotes, DoubleCoordinates;
    var m := p.modulus;
    var x, y, z, a := p.x, p.y, p.z, p.a;
    var X, Y, Z, A := x.value, y.value, z.value, a.value;
    var two, three := Make(2, m).value, Make(3, m).value;
    var t := Plus(Times(Times(x, x), three), Times(Times(a, z), z));
    var u := Times(Times(y, z), two);
    var v := Times(Times(Times(u, x), y), two);
    var w := Minus(Times(t, t), Times(v, two));
    DoubleUnfold(p, two, three);

    var T, U := X * X * 3 + A * Z * Z, Y * Z * 2;
    var V := U * X * Y * 2;
    var W := T * T - V * 2;
    DoubleStepT(x, z, a, three);
    DoubleStepU(y, z, two);
    DoubleStepV(u, x, y, two, U);
    DoubleStepW(t, v, two, T, V);
    DoubleStepOut(t, u, v, w, y, two, T, U, V, W);
    DoubleCoordinatesUnfold(X, Y, Z, A, T, U, V, W);
  }

  /** `double` on a triple over a modulus above 3 takes the formula branch. */
  lemma DoubleUnfold(p: Point, two: FieldInt, three: FieldInt)
    requires p.Proj? && p.modulus > 3
    requires two == Make(2, p.modulus).value && three == Make(3, p.modulus).value
    ensures var t := Plus(Times(Times(p.x, p.x), three), Times(Times(p.a, p.z), p.z));
            var u := Times(Times(p.y, p.z), two);
            var v := Times(Times(Times(u, p.x), p.y), two);
            var w := Minus(Times(t, t), Times(v, two));
            Double(p) == Ok(Factory(p,
                                    Times(u, w),
                                    Minus(Times(t, Minus(v, w)), Times(Times(Times(Times(u, u), p.y), p.y), two)),
                                    Times(Times(u, u), u)))
  {
  }

  /** The doubling polynomials, named by their intermediate terms. */
  lemma DoubleCoordinatesUnfold(X: int, Y: int, Z: int, A: int, T: int, U: int, V: int, W: int)
    requires T == X * X * 3 + A * Z * Z && U == Y * Z * 2
    requires V == U * X * Y * 2 && W == T * T - V * 2
    ensures DoubleCoordinates(X, Y, Z, A) == (U * W, T * (V - W) - U * U * Y * Y * 2, U * U * U)
  {
  }

  lemma DoubleStepT(x: FieldInt, z: FieldInt, a: FieldInt, three: FieldInt)
    requires x.modulus == z.modulus == a.modulus == three.modulus && three.value == 3
    ensures Denotes(Plus(Times(Times(x, x), three), Times(Times(a, z), z)),
                    x.value * x.value * 3 + a.value * z.value * z.value)
  {
    var X, Z, A := x.value, z.value, a.value;
    DenotesSelf(x); DenotesSelf(z); DenotesSelf(a); DenotesSelf(three);
    TimesDenotes(x, x, X, X);
    TimesDenotes(Times(x, x), three, X * X, 3);
    TimesDenotes(a, z, A, Z);
    TimesDenotes(Times(a, z), z, A * Z, Z);
    PlusDenotes(Times(Times(x, x), three), Times(Times(a, z), z), X * X * 3, A * Z * Z);
  }

  lemma DoubleStepU(y: FieldInt, z: FieldInt, two: FieldInt)
    requires y.modulus == z.modulus == two.modulus && two.value == 2
    ensures Denotes(Times(Times(y, z), two), y.value * z.value * 2)
  {
    DenotesSelf(y); DenotesSelf(z); DenotesSelf(two);
    TimesDenotes(y, z, y.value, z.value);
    TimesDenotes(Times(y, z), two, y.value * z.value, 2);
  }

  lemma DoubleStepV(u: FieldInt, x: FieldInt, y: FieldInt, two: FieldInt, eu: int)
    requires u.modulus == x.modulus == y.modulus == two.modulus && two.value == 2
    requires Denotes(u, eu)
    ensures Denotes(Times(Times(Times(u, x), y), two), eu * x.value * y.value * 2)
  {
    DenotesSelf(x); DenotesSelf(y); DenotesSelf(two);
    TimesDenotes(u, x, eu, x.value);
    TimesDenotes(Times(u, x), y, eu * x.value, y.value);
    TimesDenotes(Times(Times(u, x), y), two, eu * x.value * y.value, 2);
  }

  lemma DoubleStepW(t: FieldInt, v: FieldInt, two: FieldInt, et: int, ev: int)
    requires t.modulus == v.modulus == two.modulus && two.value == 2
    requires Denotes(t, et) && Denotes(v, ev)
    ensures Denotes(Minus(Times(t, t), Times(v, two)), et * et - ev * 2)
  {
    DenotesSelf(two);
    TimesDenotes(t, t, et, et);
    TimesDenotes(v, two, ev, 2);
    MinusDenotes(Times(t, t), Times(v, two), et * et, ev * 2);
  }

  lemma DoubleStepOut(t: FieldInt, u: FieldInt, v: FieldInt, w: FieldInt, y: FieldInt, two: FieldInt,
                      et: int, eu: int, ev: int, ew: int)
    requires t.modulus == u.modulus == v.modulus == w.modulus == y.modulus == two.modulus
    requires two.value == 2
    requires Denotes(t, et) && Denotes(u, eu) && Denotes(v, ev) && Denotes(w, ew)
    ensures Denotes(Times(u, w), eu * ew)
    ensures Denotes(Minus(Times(t, Minus(v, w)), Times(Times(Times(Times(u, u), y), y), two)),
                    et * (ev - ew) - eu * eu * y.value * y.value * 2)
    ensures Denotes(Times(Times(u, u), u), eu * eu * eu)
  {
    var Y := y.value;
    DenotesSelf(y); DenotesSelf(two);
    TimesDenotes(u, w, eu, ew);
    MinusDenotes(v, w, ev, ew);
    TimesDenotes(t, Minus(v, w), et, ev - ew);
    TimesDenotes(u, u, eu, eu);
    TimesDenotes(Times(u, u), y, eu * eu, Y);
    TimesDenotes(Times(Times(u, u), y), y, eu * eu * Y, Y);
    TimesDenotes(Times(Times(Times(u, u), y), y), two, eu * eu * Y * Y, 2);
    MinusDenotes(Times(t, Minus(v, w)), Times(Times(Times(Times(u, u), y), y), two),
                 et * (ev - ew), eu * eu * Y * Y * 2);
    TimesDenotes(Times(u, u), u, eu * eu, eu);
  }

  /** The three-way tie-break of `__add__` on two triples of one curve,
      decided by congruence of the integer cross products. */
  lemma AddBranches(p: Point, q: Point)
    requires SameCurve(p, q) && p.Proj? && q.Proj?
    ensures var m := p.modulus;
            var sameX := Congruent(p.x.value * q.z.value, q.x.value * p.z.value, m);
            var sameY := Congruent(p.y.value * q.z.value, q.y.value * p.z.value, m);
            && (sameX && sameY ==> Points.Add(p, q) == Double(p))
            && (sameX && !sameY ==> Points.Add(p, q) == Ok(ZeroOf(p)))
            && (!sameX ==>
                  && Points.Add(p, q).Ok?
                  && DenotesTriple(Points.Add(p, q).value,
                                   AddCoordinates(p.x.value, p.y.value, p.z.value,
                                                  q.x.value, q.y.value, q.z.value)))
  {
    CrossProductResidues(p, q);
    if !Congruent(p.x.value * q.z.value, q.x.value * p.z.value, p.modulus) {
      AddFormula(p, q);
    }
  }

  lemma AddFormula(p: Point, q: Point)
    requires SameCurve(p, q) && p.Proj? && q.Proj?
    requires Times(p.x, q.z) != Times(q.x, p.z)
    ensures Points.Add(p, q).Ok?
    ensures DenotesTriple(Points.Add(p, q).value,
                          AddCoordinates(p.x.value, p.y.value, p.z.value,
                                         q.x.value, q.y.value, q.z.value))
  {
    hide Points.Add, Times, Plus, Minus, Denotes, AddCoordinates;
    var x1, y1, z1, x2, y2, z2 := p.x, p.y, p.z, q.x, q.y, q.z;
    var X1, Y1, Z1, X2, Y2, Z2 := x1.value, y1.value, z1.value, x2.value, y2.value, z2.value;
    DenotesSelf(x1); DenotesSelf(y1); DenotesSelf(z1);
    DenotesSelf(x2); DenotesSelf(y2); DenotesSelf(z2);
    var t0, t1, u0, u1 := Times(y1, z2), Times(y2, z1), Times(x1, z2), Times(x2, z1);
    var t, u := Minus(t0, t1), Minus(u0, u1);
    var u2, v := Times(u, u), Times(z1, z2);
    var w := Minus(Times(Times(t, t), v), Times(u2, Plus(u0, u1)));
    var u3 := Times(u, u2);
    var rx := Times(u, w);
    var ry := Minus(Times(t, Minus(Times(u0, u2), w)), Times(t0, u3));
    var rz := Times(u3, v);
    AddUnfold(p, q);

    var T0, T1, U0, U1 := Y1 * Z2, Y2 * Z1, X1 * Z2, X2 * Z1;
    TimesDenotes(y1, z2, Y1, Z2);
    TimesDenotes(y2, z1, Y2, Z1);
    TimesDenotes(x1, z2, X1, Z2);
    TimesDenotes(x2, z1, X2, Z1);
    var T, U := T0 - T1, U0 - U1;
    MinusDenotes(t0, t1, T0, T1);
    MinusDenotes(u0, u1, U0, U1);
    var U2, V := U * U, Z1 * Z2;
    TimesDenotes(u, u, U, U);
    TimesDenotes(z1, z2, Z1, Z2);
    var W := T * T * V - U2 * (U0 + U1);
    TimesDenotes(t, t, T, T);
    TimesDenotes(Times(t, t), v, T * T, V);
    PlusDenotes(u0, u1, U0, U1);
    TimesDenotes(u2, Plus(u0, u1), U2, U0 + U1);
    MinusDenotes(Times(Times(t, t), v), Times(u2, Plus(u0, u1)), T * T * V, U2 * (U0 + U1));
    var U3 := U * U2;
    TimesDenotes(u, u2, U, U2);
    TimesDenotes(u, w, U, W);
    TimesDenotes(u0, u2, U0, U2);
    MinusDenotes(Times(u0, u2), w, U0 * U2, W);
    TimesDenotes(t, Minus(Times(u0, u2), w), T, U0 * U2 - W);
    TimesDenotes(t0, u3, T0, U3);
    MinusDenotes(Times(t, Minus(Times(u0, u2), w)), Times(t0, u3), T * (U0 * U2 - W), T0 * U3);
    TimesDenotes(u3, v, U3, V);
    AddCoordinatesUnfold(X1, Y1, Z1, X2, Y2, Z2, T0, T1, U0, U1, T, U, U2, V, W, U3);
  }

  /** `__add__` on two triples of one curve whose x cross terms differ
      takes the general formula. */
  lemma AddUnfold(p: Point, q: Point)
    requires SameCurve(p, q) && p.Proj? && q.Proj?
    requires Times(p.x, q.z) != Times(q.x, p.z)
    ensures var t0, t1, u0, u1 := Times(p.y, q.z), Times(q.y, p.z), Times(p.x, q.z), Times(q.x, p.z);
            var t, u := Minus(t0, t1), Minus(u0, u1);
            var u2, v := Times(u, u), Times(p.z, q.z);
            var w := Minus(Times(Times(t, t), v), Times(u2, Plus(u0, u1)));
            var u3 := Times(u, u2);
            Points.Add(p, q) == Ok(Factory(p,
                                           Times(u, w),
                                           Minus(Times(t, Minus(Times(u0, u2), w)), Times(t0, u3)),
                                           Times(u3, v)))
  {
  }

  /** The addition polynomials, named by their intermediate terms. */
  lemma AddCoordinatesUnfold(X1: int, Y1: int, Z1: int, X2: int, Y2: int, Z2: int,
                             T0: int, T1: int, U0: int, U1: int,
                             T: int, U: int, U2: int, V: int, W: int, U3: int)
    requires T0 == Y1 * Z2 && T1 == Y2 * Z1 && U0 == X1 * Z2 && U1 == X2 * Z1
    requires T == T0 - T1 && U == U0 - U1
    requires U2 == U * U && V == Z1 * Z2
    requires W == T * T * V - U2 * (U0 + U1) && U3 == U * U2
    ensures AddCoordinates(X1, Y1, Z1, X2, Y2, Z2) == (U * W, T * (U0 * U2 - W) - T0 * U3, U3 * V)
  {
  }

  /** A triple whose `y` is 0 does not double to zero: the result is a
      triple with `z == 0`, which `__eq__` tells apart from the zero point. */
  lemma DoubleOfTwoTorsion(p: Point)
    requires p.Proj? && p.y.value == 0 && p.modulus > 3
    ensures Double(p).Ok? && Double(p).value.Proj?
    ensures Double(p).value.z.value == 0
    ensures Equal(Double(p).value, ZeroOf(p)) == Ok(false)
  {
    DoubleFormula(p);
    var r := Double(p).value;
    var c := DoubleCoordinates(p.x.value, 0, p.z.value, p.a.value);
    assert c.2 == 0;
    CongruentInRange(r.z.value, 0, p.modulus);
  }

  /** Negation is an involution. */
  lemma NegInvolution(p: Point)
    ensures Points.Neg(Points.Neg(p)) == p
  {
    if p.Proj? {
      FieldInts.NegInvolution(p.y);
    }
  }

  /** Negation keeps a point on, or off, the curve. */
  lemma NegPreservesCurve(p: Point)
    ensures IsOnCurve(Points.Neg(p)) == IsOnCurve(p)
  {
    if p.Proj? {
      var m := p.modulus;
      var Y, Y', Z := p.y.value, Points.Neg(p).y.value, p.z.value;
      var R := p.x.value * p.x.value * p.x.value
                 + p.a.value * p.x.value * p.z.value * p.z.value
                 + p.b.value * p.z.value * p.z.value * p.z.value;
      CongruentMul(Y', -Y, Y', -Y, m);
      assert (-Y) * (-Y) == Y * Y;
      CongruentRefl(Z, m);
      CongruentMul(Y' * Y', Y * Y, Z, Z, m);
      CongruentSymm(Y' * Y' * Z, Y * Y * Z, m);
      if Congruent(Y * Y * Z, R, m) {
        CongruentTrans(Y' * Y' * Z, Y * Y * Z, R, m);
      }
      if Congruent(Y' * Y' * Z, R, m) {
        CongruentTrans(Y * Y * Z, Y' * Y' * Z, R, m);
      }
    }
  }

  /** `P + P` is `P.double()`: the cross terms of a point with itself agree. */
  lemma AddSelfIsDouble(p: Point)
    ensures Points.Add(p, p) == Double(p)
  {
  }

  /** `P + (-P)`, and so `P - P`, is zero unless `2 y z` is congruent to 0;
      then the cross terms coincide and the sum falls through to `double`. */
  lemma AddNegation(p: Point)
    requires p.Proj?
    ensures Points.Sub(p, p) == Points.Add(p, Points.Neg(p))
    ensures Points.Add(p, Points.Neg(p)) ==
              if Congruent(2 * p.y.value * p.z.value, 0, p.modulus) then Double(p) else Ok(ZeroOf(p))
  {
    hide Points.Add, Double, Times, Plus, Minus, AddCoordinates, DenotesTriple;
    var q := Points.Neg(p);
    AddBranches(p, q);
    CongruentRefl(p.x.value * p.z.value, p.modulus);
    NegatedCrossTerms(p.y.value, q.y.value, p.z.value, p.modulus);
  }

  /** With `y'` congruent to `-y`, the y cross terms `y z` and `y' z`
      coincide exactly when `2 y z` is congruent to 0. */
  lemma NegatedCrossTerms(Y: int, Y': int, Z: int, m: int)
    requires m > 0 && Congruent(Y', -Y, m)
    ensures Congruent(Y * Z, Y' * Z, m) <==> Congruent(2 * Y * Z, 0, m)
  {
    CongruentRefl(Z, m);
    CongruentMul(Y', -Y, Z, Z, m);
    assert Y * Z - (-Y) * Z == 2 * Y * Z - 0;
    if Congruent(Y * Z, Y' * Z, m) {
      CongruentSymm(Y' * Z, -Y * Z, m);
      CongruentTrans(Y * Z, Y' * Z, -Y * Z, m);
    }
    if Congruent(Y * Z, -Y * Z, m) {
      CongruentSymm(Y' * Z, -Y * Z, m);
      CongruentTrans(Y * Z, -Y * Z, Y' * Z, m);
    }
  }

  /** Swapping the operands of the addition polynomials negates all three
      coordinates. */
  lemma AddCoordinatesSwap(X1: int, Y1: int, Z1: int, X2: int, Y2: int, Z2: int)
    ensures var c := AddCoordinates(X1, Y1, Z1, X2, Y2, Z2);
            AddCoordinates(X2, Y2, Z2, X1, Y1, Z1) == (-c.0, -c.1, -c.2)
  {
    hide AddCoordinates;
    var T0, T1, U0, U1 := Y1 * Z2, Y2 * Z1, X1 * Z2, X2 * Z1;
    var T, U := T0 - T1, U0 - U1;
    var U2, V := U * U, Z1 * Z2;
    var W := T * T * V - U2 * (U0 + U1);
    var U3 := U * U2;
    AddCoordinatesUnfold(X1, Y1, Z1, X2, Y2, Z2, T0, T1, U0, U1, T, U, U2, V, W, U3);
    assert (-U) * (-U) == U2;
    assert (-T) * (-T) * V == T * T * V;
    assert Z2 * Z1 == V;
    assert (-U) * U2 == -U3;
    AddCoordinatesUnfold(X2, Y2, Z2, X1, Y1, Z1, T1, T0, U1, U0, -T, -U, U2, V, W, -U3);
    assert (-U) * W == -(U * W);
    assert (-U3) * V == -(U3 * V);
    calc {
      (-T) * (U1 * U2 - W) - T1 * (-U3);
      -(T * U1 * U2) + T * W + T1 * U3;
      { assert T * U0 * U2 - T * U1 * U2 == T * U3 by {
          assert T * U0 * U2 - T * U1 * U2 == T * (U * U2);
        }
        assert T0 * U3 - T1 * U3 == T * U3;
      }
      -(T * U0 * U2) + T * W + T0 * U3;
      -(T * (U0 * U2 - W) - T0 * U3);
    }
  }

  /** Two triples of one curve whose coordinates are the residues of
      `(X, Y, Z)` and `(-X, -Y, -Z)` are equal as projective points. */
  lemma NegatedTriplesEqual(r: Point, s: Point, X: int, Y: int, Z: int)
    requires r.Proj? && s.Proj? && SameCurve(r, s)
    requires DenotesTriple(r, (X, Y, Z)) && DenotesTriple(s, (-X, -Y, -Z))
    ensures Equal(r, s) == Ok(true)
  {
    var m := r.modulus;
    CongruentMul(r.x.value, X, s.z.value, -Z, m);
    CongruentMul(s.x.value, -X, r.z.value, Z, m);
    assert X * (-Z) == (-X) * Z;
    CongruentSymm(s.x.value * r.z.value, (-X) * Z, m);
    CongruentTrans(r.x.value * s.z.value, X * (-Z), s.x.value * r.z.value, m);
    CongruentMul(r.y.value, Y, s.z.value, -Z, m);
    CongruentMul(s.y.value, -Y, r.z.value, Z, m);
    assert Y * (-Z) == (-Y) * Z;
    CongruentSymm(s.y.value * r.z.value, (-Y) * Z, m);
    CongruentTrans(r.y.value * s.z.value, Y * (-Z), s.y.value * r.z.value, m);
  }

  /** `__add__` commutes up to projective equality away from the doubling
      branch: with differing x cross terms, `P + Q` and `Q + P` are the same
      projective point; with matching x but differing y cross terms, both
      are the zero point. */
  lemma AddCommutes(p: Point, q: Point)
    requires SameCurve(p, q) && p.Proj? && q.Proj?
    ensures var m := p.modulus;
            !Congruent(p.x.value * q.z.value, q.x.value * p.z.value, m) ==>
              && Points.Add(p, q).Ok? && Points.Add(q, p).Ok?
              && Equal(Points.Add(p, q).value, Points.Add(q, p).value) == Ok(true)
    ensures var m := p.modulus;
            && Congruent(p.x.value * q.z.value, q.x.value * p.z.value, m)
            && !Congruent(p.y.value * q.z.value, q.y.value * p.z.value, m) ==>
              Points.Add(p, q) == Points.Add(q, p) == Ok(ZeroOf(p))
  {
    var m := p.modulus;
    AddBranches(p, q);
    AddBranches(q, p);
    hide Points.Add, Double, Equal;
    var sameX := Congruent(p.x.value * q.z.value, q.x.value * p.z.value, m);
    var sameY := Congruent(p.y.value * q.z.value, q.y.value * p.z.value, m);
    if !sameX {
      if Congruent(q.x.value * p.z.value, p.x.value * q.z.value, m) {
        CongruentSymm(q.x.value * p.z.value, p.x.value * q.z.value, m);
      }
      var c := AddCoordinates(p.x.value, p.y.value, p.z.value, q.x.value, q.y.value, q.z.value);
      AddCoordinatesSwap(p.x.value, p.y.value, p.z.value, q.x.value, q.y.value, q.z.value);
      NegatedTriplesEqual(Points.Add(p, q).value, Points.Add(q, p).value, c.0, c.1, c.2);
    } else if !sameY {
      CongruentSymm(p.x.value * q.z.value, q.x.value * p.z.value, m);
      if Congruent(q.y.value * p.z.value, p.y.value * q.z.value, m) {
        CongruentSymm(q.y.value * p.z.value, p.y.value * q.z.value, m);
      }
    }
  }

  /** Projective equality is reflexive. */
  lemma EqualReflexive(p: Point)
    ensures Equal(p, p) == Ok(true)
  {
  }

  /** Projective equality is symmetric, failures included. */
  lemma EqualSymmetric(p: Point, q: Point)
    ensures Equal(p, q) == Equal(q, p)
  {
  }
}
