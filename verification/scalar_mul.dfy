/** Scalar multiplication `P * n`: least-significant-bit-first double-and-add.

    The loop adds the running doubling `temp` into the accumulator whenever
    the low bit of `n` is set, then always doubles `temp` and shifts `n`.
    `BitSum` is an independent description of the same value: peel off the
    highest set bit `k` of `n`, and add the `k`-fold doubling of `P` to the
    sum for the remaining bits. Because the loop meets the bits in increasing
    order and always adds into the accumulator on the left, the two agree
    exactly, triple for triple, with no appeal to the group law.
 */
module ScalarMul {
  import opened Results
  import opened ModArith
  import opened Points
  import PointLaws

  function Pow2(k: nat): (r: nat)
    ensures r >= 1
  {
    if k == 0 then 1 else 2 * Pow2(k - 1)
  }

  lemma {:induction false} Pow2Monotone(i: nat, j: nat)
    requires i <= j
    ensures Pow2(i) <= Pow2(j)
    decreases j
  {
    if i < j {
      Pow2Monotone(i, j - 1);
    }
  }

  /** The position of the highest set bit of a positive integer. */
  function TopBit(n: nat): (k: nat)
    requires n > 0
    ensures Pow2(k) <= n < Pow2(k + 1)
  {
    if n == 1 then 0 else 1 + TopBit(n / 2)
  }

  /** The highest set bit is the only `k` with `2^k <= n < 2^(k+1)`. */
  lemma TopBitUnique(n: nat, k: nat)
    requires Pow2(k) <= n < Pow2(k + 1)
    ensures TopBit(n) == k
  {
    var k' := TopBit(n);
    if k' < k {
      Pow2Monotone(k' + 1, k);
    } else if k < k' {
      Pow2Monotone(k + 1, k');
    }
  }

  /** `n` shifted right `i` times: the value of `n` in the loop of `__mul__`
      after `i` rounds. */
  function High(n: nat, i: nat): nat
  {
    if i == 0 then n else High(n, i - 1) / 2
  }

  /** The `i` lowest bits of `n`, accumulated one round at a time. */
  function Low(n: nat, i: nat): (r: nat)
    ensures r < Pow2(i)
  {
    if i == 0 then 0
    else Low(n, i - 1) + (if High(n, i - 1) % 2 == 0 then 0 else Pow2(i - 1))
  }

  /** Splitting off the low bit of `h` moves one factor 2 onto `p`. */
  lemma Regroup(h: int, q: int, p: int, bit: int)
    requires bit == 0 || bit == 1
    requires h == 2 * q + bit
    ensures h * p == q * (2 * p) + (if bit == 0 then 0 else p)
  {
    if bit == 0 {
      assert h * p == q * (2 * p);
    } else {
      assert h * p == (2 * q) * p + p;
    }
  }

  /** The shifted-out bits and the remaining high part make up `n` again. */
  lemma {:induction false} SplitBits(n: nat, i: nat)
    ensures n == High(n, i) * Pow2(i) + Low(n, i)
  {
    if i > 0 {
      SplitBits(n, i - 1);
      var h, p := High(n, i - 1), Pow2(i - 1);
      Regroup(h, h / 2, p, h % 2);
    }
  }

  /** `temp` after `k` rounds: `P` doubled `k` times. */
  function Doubled(p: Point, k: nat): (r: Point)
    requires CanDouble(p)
    ensures SameCurve(r, p) && (r.Zero? <==> p.Zero?)
  {
    if k == 0 then p else Double(Doubled(p, k - 1)).value
  }

  /** The sum of `Doubled(P, i)` over the set bits `i` of `n`, added in
      increasing order of `i` onto the zero point. */
  function BitSum(p: Point, n: nat): (r: Point)
    requires CanDouble(p)
    ensures SameCurve(r, p) && (p.Zero? ==> r.Zero?)
    decreases n
  {
    if n == 0 then ZeroOf(p)
    else
      var k := TopBit(n);
      Points.Add(BitSum(p, n - Pow2(k)), Doubled(p, k)).value
  }

  /** What `P * n` evaluates to for a non-negative scalar: the zero point
      for 0, a failure when the point cannot be doubled, and otherwise the
      sum of the doublings for the set bits. */
  function NatMulSpec(p: Point, n: nat): Result<Point> {
    if n == 0 then Ok(ZeroOf(p))
    else if !CanDouble(p) then Err(ValueOutOfRange)
    else Ok(BitSum(p, n))
  }

  /** What `P * n` evaluates to: a negative scalar is moved onto the point. */
  function MulSpec(p: Point, n: int): Result<Point> {
    if n < 0 then NatMulSpec(Points.Neg(p), -n) else NatMulSpec(p, n)
  }

  /** Adding the next set bit's doubling onto the sum of the lower bits. */
  lemma BitSumStep(p: Point, n: nat, i: nat)
    requires CanDouble(p)
    requires High(n, i) % 2 == 1
    ensures Points.Add(BitSum(p, Low(n, i)), Doubled(p, i)).Ok?
    ensures BitSum(p, Low(n, i + 1)) == Points.Add(BitSum(p, Low(n, i)), Doubled(p, i)).value
  {
    var low, high := Low(n, i), Low(n, i + 1);
    assert high == low + Pow2(i);
    assert Pow2(i + 1) == 2 * Pow2(i);
    TopBitUnique(high, i);
    BitSumUnfold(p, high, i, low);
  }

  /** One unfolding of `BitSum` at a known top bit. */
  lemma BitSumUnfold(p: Point, n: nat, k: nat, rest: nat)
    requires CanDouble(p) && n > 0 && TopBit(n) == k && rest == n - Pow2(k)
    ensures Points.Add(BitSum(p, rest), Doubled(p, k)).Ok?
    ensures BitSum(p, n) == Points.Add(BitSum(p, rest), Doubled(p, k)).value
  {
  }

  /** One more round of doubling. */
  lemma DoubledStep(p: Point, i: nat)
    requires CanDouble(p)
    ensures Double(Doubled(p, i)).Ok?
    ensures Double(Doubled(p, i)).value == Doubled(p, i + 1)
  {
  }

  /** `__mul__`: a negative scalar is moved onto the point, then the bits
      of the scalar are consumed by `DoubleAndAdd`. */
  method Mul(p: Point, n: int) returns (r: Result<Point>)
    ensures r == MulSpec(p, n)
  {
    hide NatMulSpec, Points.Neg;
    if n < 0 {
      r := DoubleAndAdd(Points.Neg(p), -n);
    } else {
      r := DoubleAndAdd(p, n);
    }
  }

  /** The state of the loop of `__mul__` after `i` rounds on the scalar
      `n`: `k` holds the bits not yet consumed, `temp` is `p` doubled `i`
      times and `result` sums the doublings for the consumed set bits. A
      point that cannot be doubled never gets past the first round. */
  predicate Round(p: Point, n: nat, i: nat, k: int, result: Point, temp: Point) {
    && k == High(n, i)
    && (i == 0 ==> temp == p && result == ZeroOf(p) && k == n)
    && (i > 0 ==> CanDouble(p))
    && (CanDouble(p) ==> temp == Doubled(p, i) && result == BitSum(p, Low(n, i)))
  }

  /** The loop starts from the zero point and `p` itself. */
  lemma RoundStart(p: Point, n: nat)
    ensures Round(p, n, 0, n, ZeroOf(p), p)
  {
  }

  /** One round of the loop: the addition for a set bit is defined, and
      either the doubling fails as `P * n` does, or the state moves on. */
  lemma RoundStep(p: Point, n: nat, i: nat, k: int, result: Point, temp: Point)
    requires Round(p, n, i, k, result, temp) && k != 0
    ensures k % 2 != 0 ==> Points.Add(result, temp).Ok?
    ensures Double(temp).Err? ==> NatMulSpec(p, n) == Err(Double(temp).error)
    ensures Double(temp).Ok? ==>
              Round(p, n, i + 1, k / 2,
                    if k % 2 != 0 then Points.Add(result, temp).value else result,
                    Double(temp).value)
  {
    hide Points.Add, Double, Doubled, BitSum;
    if CanDouble(p) {
      if k % 2 != 0 {
        BitSumStep(p, n, i);
      }
      DoubledStep(p, i);
    }
  }

  /** The loop ends with the value `P * n` specifies. */
  lemma RoundDone(p: Point, n: nat, i: nat, result: Point, temp: Point)
    requires Round(p, n, i, 0, result, temp)
    ensures NatMulSpec(p, n) == Ok(result)
  {
    SplitBits(n, i);
    assert High(n, i) * Pow2(i) == 0;
    if n == 0 {
      assert NatMulSpec(p, n) == Ok(ZeroOf(p));
    } else {
      assert i > 0;
      assert Low(n, i) == n;
    }
  }

  /** The loop of `__mul__` on a non-negative scalar. */
  method DoubleAndAdd(p: Point, n: nat) returns (r: Result<Point>)
    ensures r == NatMulSpec(p, n)
  {
    // The round lemmas carry every fact the loop needs about the point
    // operations, so their definitions are kept out of this proof.
    hide Points.Add, Double, Doubled, BitSum;
    RoundStart(p, n);
    var k := n;
    var result := ZeroOf(p);
    var temp := p;
    ghost var i: nat := 0;
    while k != 0
      invariant Round(p, n, i, k, result, temp)
      decreases k
    {
      RoundStep(p, n, i, k, result, temp);
      if k % 2 != 0 {
        result := Points.Add(result, temp).value;
      }
      var d := Double(temp);
      if d.Err? {
        return Err(d.error);
      }
      temp := d.value;
      k := k / 2;
      i := i + 1;
    }
    RoundDone(p, n, i, result, temp);
    return Ok(result);
  }

  // ---------------------------------------------------------------------
  // Properties of P * n

  /** `P * 0` is zero, `P * 1` is `P` and `P * 2` is `P + P`, whenever `P`
      can be doubled. */
  lemma SmallScalars(p: Point)
    ensures MulSpec(p, 0) == Ok(ZeroOf(p))
    ensures CanDouble(p) ==> MulSpec(p, 1) == Ok(p)
    ensures CanDouble(p) ==> MulSpec(p, 2) == Points.Add(p, p)
  {
    if CanDouble(p) {
      assert TopBit(1) == 0;
      assert TopBit(2) == 1;
      assert BitSum(p, 1) == Points.Add(ZeroOf(p), p).value;
      assert BitSum(p, 2) == Points.Add(ZeroOf(p), Double(p).value).value;
      PointLaws.AddSelfIsDouble(p);
    }
  }

  /** `P * 2^k` is `P` doubled `k` times. */
  lemma PowerOfTwo(p: Point, k: nat)
    requires CanDouble(p)
    ensures MulSpec(p, Pow2(k)) == Ok(Doubled(p, k))
  {
    TopBitUnique(Pow2(k), k);
    assert BitSum(p, Pow2(k)) == Points.Add(ZeroOf(p), Doubled(p, k)).value;
  }

  /** `P * n` fails exactly for a nonzero scalar on a triple whose modulus
      is at most 3, where the first doubling cannot build its constants. */
  lemma MulFails(p: Point, n: int)
    ensures MulSpec(p, n).Err? <==> n != 0 && !CanDouble(p)
    ensures MulSpec(p, n).Err? ==> MulSpec(p, n).error == ValueOutOfRange
  {
  }

  /** Negating the scalar is negating the point, for every scalar. */
  lemma NegatedScalar(p: Point, n: int)
    ensures MulSpec(p, -n) == MulSpec(Points.Neg(p), n)
  {
    if n < 0 {
      PointLaws.NegInvolution(p);
    }
  }

  /** The reference sum over the bits of any scalar, on the zero point, is
      that zero point. */
  lemma {:induction false} ZeroMultiples(p: Point, n: nat)
    requires p.Zero?
    ensures BitSum(p, n) == p
    decreases n
  {
    if n > 0 {
      ZeroMultiples(p, n - Pow2(TopBit(n)));
    }
  }

  /** `P * n` on the zero point is that zero point, for every integer `n`. */
  lemma ZeroTimesAnything(p: Point, n: int)
    requires p.Zero?
    ensures MulSpec(p, n) == Ok(p)
  {
    if n < 0 {
      ZeroMultiples(Points.Neg(p), -n);
    } else {
      ZeroMultiples(p, n);
    }
  }
}
