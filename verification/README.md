# Elliptic-curve arithmetic engine: a Dafny model

This project models the arithmetic core of a small Python elliptic-curve
library and proves properties of the model:

- **`FieldInt`** (`src/ecc/FieldInt.py`) is an immutable `(value, modulus)` pair.
  - It supports the modular operations `+ - neg *`, which fail on operands with different moduli.
  - It supports `reciprocal`, which is the extended Euclidean algorithm.
  - Equality is structural, and it is false against anything that is not a `FieldInt`.
- **`Point`** (`src/ecc/Point.py`) is either the zero point (every coordinate `None`) or a projective triple `(x : y : z)`. Both forms carry the curve context `(a, b, modulus)`.
  - The constructor checks that the moduli agree.
  - The operations are `is_zero`, `is_on_curve`, `__add__` with its three-way tie-break, `double`, `__neg__`, `__sub__`, `__eq__` (which compares cross products) and `__mul__` (least-significant-bit-first double-and-add).
- **`P256`** (`src/ecc/P256.py`) holds the fixed curve constants. Its factories `FieldInt`, `Generator` and `Projective` reduce integers into that context.

The Dafny modules follow that structure:

| module | file | contents |
|---|---|---|
| `Results` | `results.dfy` | the error kinds, `Option`, and a failure-compatible `Result` |
| `ModArith` | `mod_arith.dfy` | congruence modulo a positive integer and the facts about `%` the proofs rest on |
| `FieldInts` | `field_int.dfy` | `FieldInt`, its operations, the ring laws, and `reciprocal` as a `while` loop |
| `Points` | `point.dfy` | `Point`, the constructor, and every point operation except `__mul__` |
| `PointLaws` | `point_laws.dfy` | properties of the point operations, stated over the integers modulo `m` |
| `ScalarMul` | `scalar_mul.dfy` | `__mul__` as a `while` loop, checked against a recursive reference |
| `P256` | `p256.dfy` | the curve constants and the three factories |

Modelling decisions:

- **Range invariant as a type.** A `FieldInt` is a subset type whose values satisfy `0 <= value < modulus`, so every `FieldInt` in the model is one the constructor accepted. A `Point` is a subset type of `Zero(a, b, modulus) | Proj(x, y, z, a, b, modulus)` whose moduli agree, which is what the constructor checks. The modulus is any positive integer; nothing requires it to be prime.
- **Exceptions as results.** Every `ValueError`, and every `AttributeError`, that the code can raise on well-typed arguments becomes an `Err` of a `Result`, with one error kind per distinct failure. The type checks are described under "Left out".
- **Integers.** Python integers are unbounded, like Dafny's. For a positive divisor, Python's `%` and `//` agree with Dafny's `%` and `/`, and the source only divides by positive numbers. For a non-negative scalar, `n & 1` and `n >>= 1` are `n % 2` and `n / 2`.
- **Same inputs, same results.** Each operation returns exactly what the code does for the same inputs. That includes the behaviours listed next, which a reader of the docstrings or of the curve arithmetic might not expect.

Behaviours of the code that the model keeps:

- **`double` never returns zero on `y == 0`.** The test `self.y == 0` (src/ecc/Point.py:122) compares a `FieldInt` with the integer `0`, and `FieldInt.__eq__` is false for any non-`FieldInt`. Only the zero point doubles to zero. A triple whose `y` is 0 goes through the formula and yields a triple with `z = 0`, which `__eq__` does not equate with zero (`PointLaws.DoubleOfTwoTorsion`).
- **`double` fails on small moduli.** It constructs `FieldInt(2, m)` and `FieldInt(3, m)`, so on any triple whose modulus is at most 3 it raises "value out of range". The same failure reaches `__add__` through its doubling branch and `__mul__` through its loop.
- **`is_on_curve` uses `b·z³`.** Its docstring (src/ecc/Point.py:65) says `b·z²`.
- **`P + (-P)` is not always zero.** Its cross terms in `y` coincide when `2·y·z ≡ 0`, and then `__add__` takes the doubling branch (`PointLaws.AddNegation`).
- **A non-positive modulus has its own error.** The constructor reports it as "Modulus must be positive", separately from "Value out of range".
- **`__eq__` raises on different moduli.** On two non-zero points whose moduli differ, the first cross product raises the field's modulus-mismatch error. It does not return "unequal".
- **`Generator()` is not validated.** It builds the point without checking that it lies on the curve. Moreover `2^251 - 1` is composite (503 divides it), so `reciprocal` can report "not coprime" on this curve (`P256.ModulusHasFactor503`).

## Model

| member | source | states |
|---|---|---|
| FieldInts.Make | src/ecc/FieldInt.py:10-18 | construction succeeds exactly when the modulus is positive and the value lies in `[0, modulus)`, storing both unchanged; a non-positive modulus is reported before an out-of-range value |
| FieldInts.Create | src/ecc/FieldInt.py:20-21 | `_create(v)` keeps the modulus and yields the residue congruent to `v` |
| FieldInts.SameModulusIffSameZero | src/ecc/FieldInt.py:23-27 | `_check` (the predicate `SameModulus`) passes exactly when the two operands' residues of 0 coincide, that is, when their moduli agree |
| FieldInts.Add | src/ecc/FieldInt.py:31-33 | `+` succeeds exactly on equal moduli, otherwise fails with the modulus-mismatch error; the sum keeps the modulus and is congruent to the integer sum |
| FieldInts.Sub | src/ecc/FieldInt.py:35-37 | `-` succeeds exactly on equal moduli, otherwise fails with the modulus-mismatch error; the result is congruent to the integer difference |
| FieldInts.Neg | src/ecc/FieldInt.py:39-40 | unary `-` never fails, keeps the modulus and is congruent to the negated value |
| FieldInts.Mul | src/ecc/FieldInt.py:42-44 | `*` succeeds exactly on equal moduli, otherwise fails with the modulus-mismatch error; the product is congruent to the integer product |
| FieldInts.Eq | src/ecc/FieldInt.py:62-63 | `==` is false against an integer operand and, against a `FieldInt`, true exactly when value and modulus both agree |
| FieldInts.AddCommutes | src/ecc/FieldInt.py:31-33 | `x + y == y + x` for all operands, mismatch failures included |
| FieldInts.MulCommutes | src/ecc/FieldInt.py:42-44 | `x * y == y * x` for all operands, mismatch failures included |
| FieldInts.AddAssociates | src/ecc/FieldInt.py:31-33 | `(x + y) + z == x + (y + z)` on one modulus |
| FieldInts.MulAssociates | src/ecc/FieldInt.py:42-44 | `(x * y) * z == x * (y * z)` on one modulus |
| FieldInts.MulDistributesOverAdd | src/ecc/FieldInt.py:31-44 | `x * (y + z) == x * y + x * z` on one modulus |
| FieldInts.AddNegIsZero | src/ecc/FieldInt.py:31-40 | `x + (-x)` is the element with value 0 on `x`'s modulus |
| FieldInts.NegInvolution | src/ecc/FieldInt.py:39-40 | `-(-x) == x` |
| FieldInts.SubIsAddNeg | src/ecc/FieldInt.py:35-40 | `x - y == x + (-y)`, mismatch failures included |
| FieldInts.GcdDivides | src/ecc/FieldInt.py:50-54 | the value the Euclidean loop ends with is positive and divides both the modulus and the value |
| FieldInts.GcdGreatest | src/ecc/FieldInt.py:50-54 | every positive common divisor of the modulus and the value divides the value the Euclidean loop ends with, so that value is their greatest common divisor |
| FieldInts.NoInverseUnlessCoprime | src/ecc/FieldInt.py:55-58 | when that gcd is not 1, no residue is an inverse of the value |
| FieldInts.Reciprocal | src/ecc/FieldInt.py:46-58 | the zero value fails with division by zero; otherwise the call succeeds exactly when the gcd is 1, returning a residue on the same modulus whose product with the value is 1 modulo it, and fails with "not coprime" (no inverse exists) otherwise |
| Points.MakePoint | src/ecc/Point.py:33-43 | the constructor succeeds exactly when the coefficients and every present coordinate share the modulus; a present `x` with a missing `y` or `z` fails as a missing coordinate in short-circuit order; fields are stored unchanged and the point is zero exactly when `x` is absent |
| Points.Factory | src/ecc/Point.py:45-53 | `factory(x, y, z)` with coordinates on the point's modulus is accepted by the constructor and yields the triple `(x : y : z)` with the caller's `a`, `b` and modulus |
| Points.ZeroOf | src/ecc/Point.py:45-53 | `factory(None, None, None)` is accepted by the constructor and yields the zero point carrying the caller's `a`, `b` and modulus |
| Points.IsZeroIffZeroOf | src/ecc/Point.py:55-60 | `is_zero` (the predicate `IsZero`) holds exactly when the point is the zero point `factory(None, None, None)` of its own curve context |
| Points.SameCurveIffSameZero | src/ecc/Point.py:82-84 | the parameter test of `__add__` (the predicate `SameCurve`) passes exactly when the two points' curve contexts have the same zero point, that is, when `(a, b, modulus)` agree |
| Points.IsOnCurve | src/ecc/Point.py:62-70 | false for the zero point; for a triple, true exactly when `y²z ≡ x³ + a·x·z² + b·z³` modulo `m` |
| Points.Double | src/ecc/Point.py:117-133 | succeeds exactly for the zero point or a modulus above 3, otherwise fails with "value out of range"; keeps the curve context; the result is zero exactly when the input is |
| Points.Add | src/ecc/Point.py:72-115 | differing curve contexts fail with the curve-mismatch error; a zero operand returns the other one in either order; on a modulus above 3 the sum is defined and keeps the curve context |
| Points.Neg | src/ecc/Point.py:135-143 | keeps the curve context and zero-ness; on a triple, `x` and `z` are unchanged and `y` is congruent to its negation |
| Points.Sub | src/ecc/Point.py:145-151 | `P - Q` fails on differing curves, returns `P` for a zero `Q` and `-Q` for a zero `P`, and keeps the curve context |
| Points.Equal | src/ecc/Point.py:177-188 | zero points equal each other and nothing else; two triples fail exactly when their moduli differ, and otherwise are equal exactly when the curve contexts match and the x and y cross products are congruent |
| PointLaws.DoubleFormula | src/ecc/Point.py:125-133 | doubling a triple over a modulus above 3 yields the residues of the doubling polynomials `(u·w, t·(v-w) - 2u²y², u³)` in the input coordinates |
| PointLaws.AddBranches | src/ecc/Point.py:93-115 | on two triples of one curve: matching x and y cross terms give `double`, matching x only gives zero, and otherwise the residues of the addition polynomials |
| PointLaws.AddFormula | src/ecc/Point.py:104-115 | with differing x cross terms the sum is defined and its coordinates are the residues of `(u·w, t·(u0·u2 - w) - t0·u3, u3·v)` |
| PointLaws.AddCoordinatesSwap | src/ecc/Point.py:106-114 | swapping the operands of the addition polynomials negates all three coordinates |
| PointLaws.NegatedTriplesEqual | src/ecc/Point.py:186-188 | a triple and its coordinate-wise negation on one curve compare equal |
| PointLaws.AddCommutes | src/ecc/Point.py:93-115 | with differing x cross terms `P + Q` and `Q + P` are equal as projective points; with matching x but differing y cross terms both are the zero point |
| PointLaws.DoubleOfTwoTorsion | src/ecc/Point.py:122-133 | a triple with `y = 0` over a modulus above 3 doubles to a triple with `z = 0` that does not equal the zero point |
| PointLaws.NegInvolution | src/ecc/Point.py:135-143 | `-(-P) == P` for every point |
| PointLaws.NegPreservesCurve | src/ecc/Point.py:135-143 | `-P` is on the curve exactly when `P` is |
| PointLaws.AddSelfIsDouble | src/ecc/Point.py:98-101 | `P + P` is `P.double()` for every point |
| PointLaws.AddNegation | src/ecc/Point.py:93-103 | `P - P` is `P + (-P)`, which is zero unless `2·y·z ≡ 0`, in which case it is `P.double()` |
| PointLaws.EqualReflexive | src/ecc/Point.py:183-188 | every point equals itself |
| PointLaws.EqualSymmetric | src/ecc/Point.py:183-188 | `P == Q` and `Q == P` agree, failures included |
| ScalarMul.Mul | src/ecc/Point.py:153-175 | `P * n` is the reference value: a negative scalar is moved onto `-P`, zero gives the zero point, a nonzero scalar fails on a triple whose modulus is at most 3, and otherwise the result is the sum of `P` doubled `i` times over the set bits `i` of `n` |
| ScalarMul.DoubleAndAdd | src/ecc/Point.py:164-175 | the loop on a non-negative scalar computes the reference value |
| ScalarMul.RoundStep | src/ecc/Point.py:168-173 | one round adds the running doubling into the accumulator for a set bit, then doubles it; either that doubling fails as the whole product does, or the loop state advances one bit |
| ScalarMul.RoundDone | src/ecc/Point.py:168-175 | when the scalar is exhausted the accumulator holds the reference value |
| ScalarMul.BitSumStep | src/ecc/Point.py:169-170 | adding the running doubling for a set bit extends the sum over the lower bits to the sum over one more bit |
| ScalarMul.SmallScalars | src/ecc/Point.py:164-175 | `P * 0` is zero; if `P` can be doubled, `P * 1 == P` and `P * 2 == P + P` |
| ScalarMul.PowerOfTwo | src/ecc/Point.py:168-173 | `P * 2^k` is `P` doubled `k` times |
| ScalarMul.MulFails | src/ecc/Point.py:164-175 | `P * n` fails exactly when `n` is nonzero and `P` is a triple over a modulus of at most 3, always with "value out of range" |
| ScalarMul.NegatedScalar | src/ecc/Point.py:161-162 | `P * (-n) == (-P) * n` for every integer `n` |
| ScalarMul.ZeroMultiples | src/ecc/Point.py:86-88 | the reference sum over the bits of any non-negative scalar, on a zero point, is that zero point |
| ScalarMul.ZeroTimesAnything | src/ecc/Point.py:161-175 | `P * n` is `P` itself for a zero point `P` and every integer `n`, negative ones included |
| P256.FieldInt | src/ecc/P256.py:40-41 | any integer reduces, without failing, to the element on `2^251 - 1` congruent to it |
| P256.Generator | src/ecc/P256.py:25-37 | the generator is a triple on the curve context with `z = 1`, `a = 3`, coefficients and coordinates congruent to the constants |
| P256.Projective | src/ecc/P256.py:44-52 | any three integers give a triple on the same curve context whose coordinates are congruent to them |
| P256.FieldIntCanonical | src/ecc/P256.py:40-41 | two integers reduce to the same element exactly when they are congruent modulo `2^251 - 1` |
| P256.GeneratorIsProjective | src/ecc/P256.py:25-52 | `Generator()` is `Projective(xG, yG, 1)` |
| P256.FactoriesShareCurve | src/ecc/P256.py:30-52 | points from the factories share `(a, b, m)`, so adding any two of them never fails |
| P256.MulNeverFails | src/ecc/P256.py:14 | on the curve's modulus, `P * n` never fails, for every point and scalar |
| P256.ModulusHasFactor503 | src/ecc/P256.py:14 | 503 divides the modulus, so the element 503 has no inverse and `reciprocal` fails with "not coprime" |

## Left out

- Type checks: the `TypeError` paths (src/ecc/FieldInt.py:11-12, 24-25; src/ecc/Point.py:79-81, 159-160) and the `ValueError` raised by the constructor's `isinstance` checks on coordinates and coefficients (src/ecc/Point.py:18-32). The Dafny types rule out those inputs, so these paths have nothing to model.
- `__ne__`, `__str__` and `__repr__`: these are negation and formatting only.
- `P256.random`: it draws from Python's random generator, which is outside the core.
- The demo and benchmark scripts (key exchange, signatures, timing loops): they use printing, hashing, clocks and randomness.
- The group law is not modelled: closure of the curve under addition, associativity, and the Diffie–Hellman agreement. It is a large nonlinear modular identity, and over a composite modulus the code's formulas are not guaranteed to satisfy it.
- Points.MakePoint: the zero point keeps only `(a, b, modulus)`. The `y` and `z` a caller passes alongside `x = None` are stored by the constructor, but no operation reads them.
- PointLaws.AddCommutes: the doubling branch is not covered. There `P + Q` is `P.double()` and `Q + P` is `Q.double()`. For distinct triples with matching cross products, relating the two needs a scaling factor that need not be invertible modulo a composite modulus.
- ScalarMul.DoubleAndAdd: does not state the number of loop rounds, which is the bit length of `n`. Only the value computed is stated.
- P256.Generator: not proved to lie on the curve. The constants pair the P-256 `b` and generator with an unrelated modulus, so that fact is not expected to hold. The modulus is not prime: `P256.ModulusHasFactor503` exhibits the factor 503.
