/** The fixed curve context of `P256`: the coefficients `a` and `b`, the
    modulus `m = 2^251 - 1` and the generator coordinates, with the three
    factories that reduce integers into that context.

    The modulus is composite (503 divides it), so the field operations on
    this context can meet the "not coprime" failure of `reciprocal`.
 */
module P256 {
  import opened Results
  import opened ModArith
  import F = FieldInts
  import opened Points
  import ScalarMul

  const A: int := 3
  const B: int := 41058363725152142129326129780047268409114441015993725554835256314039467401291
  /** `2^251 - 1`: a 7 followed by 62 hexadecimal f digits. */
  const M: int := 0x7ff_ffff_ffff_ffff_ffff_ffff_ffff_ffff_ffff_ffff_ffff_ffff_ffff_ffff_ffff_ffff
  const XG: int := 48439561293906451759052585252797914202762949526041747995844080717082404635286
  const YG: int := 2258390684796862237411570494974242622288194167061563441992324890848025900319

  /** `P256.FieldInt`: any integer, reduced into the curve's field. The
      reduced value always passes the constructor's checks. */
  function FieldInt(value: int): (r: F.FieldInt)
    ensures r.modulus == M && Congruent(r.value, value, M)
    ensures F.Make(r.value, r.modulus) == Ok(r)
  {
    ModCongruent(value, M);
    F.Make(value % M, M).value
  }

  /** The curve coefficients, as both factories pass them. */
  function CurveA(): (r: F.FieldInt)
    ensures r == F.Residue(A, M)
  {
    var a := FieldInt(A);
    CongruentInRange(a.value, A, M);
    a
  }

  function CurveB(): (r: F.FieldInt)
    ensures r.modulus == M && Congruent(r.value, B, M)
  {
    FieldInt(B)
  }

  /** `P256.Generator`: the base point with `z = 1`. */
  function Generator(): (g: Point)
    ensures g.Proj? && g.modulus == M && g.a == CurveA() && g.b == CurveB()
    ensures Congruent(g.x.value, XG, M) && Congruent(g.y.value, YG, M)
    ensures g.z == F.Residue(1, M)
  {
    var z := FieldInt(1);
    CongruentInRange(z.value, 1, M);
    MakePoint(Some(FieldInt(XG)), Some(FieldInt(YG)), Some(z), FieldInt(A), FieldInt(B), M).value
  }

  /** `P256.Projective`: three integers reduced into the curve's field. */
  function Projective(x: int, y: int, z: int): (p: Point)
    ensures p.Proj? && p.modulus == M && p.a == CurveA() && p.b == CurveB()
    ensures Congruent(p.x.value, x, M) && Congruent(p.y.value, y, M) && Congruent(p.z.value, z, M)
  {
    MakePoint(Some(FieldInt(x)), Some(FieldInt(y)), Some(FieldInt(z)), FieldInt(A), FieldInt(B), M).value
  }

  // ---------------------------------------------------------------------
  // Properties of the factories

  /** Reduction does not depend on the representative: integers congruent
      modulo `m` give the same field element. */
  lemma FieldIntCanonical(u: int, v: int)
    ensures FieldInt(u) == FieldInt(v) <==> Congruent(u, v, M)
  {
    var fu, fv := FieldInt(u), FieldInt(v);
    if Congruent(u, v, M) {
      CongruentSymm(fv.value, v, M);
      CongruentTrans(fu.value, u, v, M);
      CongruentTrans(fu.value, v, fv.value, M);
      F.Canonical(fu, fv);
    }
    if fu == fv {
      CongruentSymm(fu.value, u, M);
      CongruentTrans(u, fu.value, v, M);
    }
  }

  /** The generator is the projective point `(xG : yG : 1)`. */
  lemma GeneratorIsProjective()
    ensures Generator() == Projective(XG, YG, 1)
  {
  }

  /** Every point the factories build lies on the same curve context, so
      the parameter check of `__add__` never rejects a pair of them, and
      the sum is always defined because the modulus exceeds 3. */
  lemma FactoriesShareCurve(x: int, y: int, z: int, x': int, y': int, z': int)
    ensures SameCurve(Generator(), Projective(x, y, z))
    ensures SameCurve(Projective(x, y, z), Projective(x', y', z'))
    ensures Points.Add(Generator(), Projective(x, y, z)).Ok?
    ensures Points.Add(Projective(x, y, z), Projective(x', y', z')).Ok?
  {
  }

  /** On this curve context scalar multiplication never fails, for any
      scalar and any point (the zero point included). */
  lemma MulNeverFails(p: Point, n: int)
    requires p.modulus == M
    ensures ScalarMul.MulSpec(p, n).Ok?
  {
    ScalarMul.MulFails(p, n);
  }

  /** The modulus is not prime: 503 divides it, so the field element 503
      has no inverse and `reciprocal` reports the "not coprime" failure. */
  lemma ModulusHasFactor503()
    ensures M % 503 == 0
    ensures F.Gcd(M, 503) == 503
    ensures FieldInt(503).value == 503
    ensures forall w :: !F.IsInverse(FieldInt(503), w)
  {
    var q := 7193842522199067807130404138213711969015282347517430668455366799696392249;
    assert M == q * 503;
    DivModUnique(M, 503, q, 0);
    assert F.Gcd(M, 503) == F.Gcd(503, 0) == 503;
    var f := FieldInt(503);
    CongruentInRange(f.value, 503, M);
    F.NoInverseUnlessCoprime(f);
  }
}
