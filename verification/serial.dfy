/** The lag-1 serial correlation: five running sums over the pairs
    (data[i-1], data[i]) and the integer numerator and denominator factors of
    the coefficient `num / sqrt(factorX * factorY)`. The square root and the
    final division are not part of this model. */
module Serial {
  import opened Bytes
  import opened Mean

  /** The five accumulators of the source, in its order. */
  datatype SerialSums = SerialSums(sumX: nat, sumY: nat, sumXY: nat, sumX2: nat, sumY2: nat)

  /** The sums after one more pair (x, y). */
  function AddPair(p: SerialSums, x: Byte, y: Byte): (r: SerialSums)
    ensures p.sumX <= r.sumX <= p.sumX + 255 && p.sumY <= r.sumY <= p.sumY + 255
    ensures p.sumXY <= r.sumXY <= p.sumXY + 65025
    ensures p.sumX2 <= r.sumX2 <= p.sumX2 + 65025 && p.sumY2 <= r.sumY2 <= p.sumY2 + 65025
  {
    ByteProduct(x, y);
    ByteProduct(x, x);
    ByteProduct(y, y);
    SerialSums(p.sumX + x, p.sumY + y, p.sumXY + x * y, p.sumX2 + x * x, p.sumY2 + y * y)
  }

  /** The sums after visiting every consecutive pair of s, front to back.
      Every byte but the last is an x and every byte but the first a y, so
      the x and y totals differ only by the last and the first byte. */
  function PairSums(s: seq<Byte>): (r: SerialSums)
    ensures |s| < 2 ==> r.sumX == r.sumY == r.sumX2 == r.sumY2 == r.sumXY == 0
    ensures |s| > 0 ==> r.sumX + s[|s| - 1] == r.sumY + s[0]
    ensures |s| > 0 ==> r.sumX2 + s[|s| - 1] as nat * s[|s| - 1] as nat == r.sumY2 + s[0] as nat * s[0] as nat
  {
    if |s| < 2 then SerialSums(0, 0, 0, 0, 0)
    else AddPair(PairSums(s[..|s| - 1]), s[|s| - 2], s[|s| - 1])
  }

  /** The first members of the pairs: every byte but the last. */
  function Predecessors(s: seq<Byte>): (r: seq<Byte>)
    ensures |r| == PairCount(s)
  {
    if |s| == 0 then [] else s[..|s| - 1]
  }

  /** The second members of the pairs: every byte but the first. */
  function Successors(s: seq<Byte>): (r: seq<Byte>)
    ensures |r| == PairCount(s)
  {
    if |s| == 0 then [] else s[1..]
  }

  /** The number of pairs, `n = data.size() - 1`. On the empty buffer the
      source's unsigned subtraction wraps; every sum is then 0 and so are both
      factors, as they are here with n = 0. */
  function PairCount(s: seq<Byte>): nat
  {
    if |s| == 0 then 0 else |s| - 1
  }

  /** The sum of the squares of the bytes. */
  function SumSquares(t: seq<Byte>): nat
  {
    if t == [] then 0 else SumSquares(t[..|t| - 1]) + t[|t| - 1] as nat * t[|t| - 1] as nat
  }

  /** The sum of the products of corresponding bytes. */
  function Dot(t: seq<Byte>, u: seq<Byte>): nat
    requires |t| == |u|
  {
    if t == [] then 0 else Dot(t[..|t| - 1], u[..|u| - 1]) + t[|t| - 1] as nat * u[|u| - 1] as nat
  }

  /** The five accumulators are the closed-form sums over the predecessors X
      and the successors Y: sum X, sum Y, sum X*Y, sum X^2, sum Y^2. */
  lemma {:induction false} PairSumsClosedForm(s: seq<Byte>)
    ensures PairSums(s) == SerialSums(Sum(Predecessors(s)), Sum(Successors(s)),
      Dot(Predecessors(s), Successors(s)), SumSquares(Predecessors(s)), SumSquares(Successors(s)))
  {
    if |s| >= 2 {
      var s' := s[..|s| - 1];
      PairSumsClosedForm(s');
      var xs, ys := Predecessors(s), Successors(s);
      assert xs[..|xs| - 1] == Predecessors(s');
      assert ys[..|ys| - 1] == Successors(s');
      assert xs[|xs| - 1] == s[|s| - 2];
      assert ys[|ys| - 1] == s[|s| - 1];
    }
  }

  /** Each accumulator is bounded by the number of pairs n: the linear sums
      by 255 n, the quadratic ones by 255^2 n. */
  lemma {:induction false} PairSumsBounds(s: seq<Byte>)
    ensures PairSums(s).sumX <= 255 * PairCount(s)
    ensures PairSums(s).sumY <= 255 * PairCount(s)
    ensures PairSums(s).sumXY <= 65025 * PairCount(s)
    ensures PairSums(s).sumX2 <= 65025 * PairCount(s)
    ensures PairSums(s).sumY2 <= 65025 * PairCount(s)
  {
    if |s| >= 2 {
      PairSumsBounds(s[..|s| - 1]);
      var x, y := s[|s| - 2] as nat, s[|s| - 1] as nat;
      ByteProduct(x, y);
      ByteProduct(x, x);
      ByteProduct(y, y);
    }
  }

  lemma ByteProduct(a: nat, b: nat)
    requires a < 256 && b < 256
    ensures 0 <= a * b <= 65025
  {
    calc {
      a * b;
    <=  { MulMonotone(a, 255, b); }
      255 * b;
    <=
      65025;
    }
  }

  /** All bytes of t are equal. */
  predicate AllEqual(t: seq<Byte>)
  {
    forall i :: 0 <= i < |t| ==> t[i] == t[0]
  }

  /** `n * sumSq - sum * sum`, the denominator factor the source computes
      for X and for Y. */
  function Factor(n: int, sumSq: int, sum: int): int
  {
    n * sumSq - sum * sum
  }

  /** The factor of a sequence of bytes over its own length. */
  function Spread(t: seq<Byte>): int
  {
    Factor(|t|, SumSquares(t), Sum(t))
  }

  /** The sum of the squared distances of the bytes of t from a. */
  function SqDist(t: seq<Byte>, a: int): int
  {
    if t == [] then 0 else SqDist(t[..|t| - 1], a) + (t[|t| - 1] - a) * (t[|t| - 1] - a)
  }

  /** A sum of squares is never negative and is zero exactly when every byte
      equals a. */
  lemma {:induction false} SqDistZero(t: seq<Byte>, a: int)
    ensures SqDist(t, a) >= 0
    ensures SqDist(t, a) == 0 ==> forall i :: 0 <= i < |t| ==> t[i] == a
    ensures (forall i :: 0 <= i < |t| ==> t[i] == a) ==> SqDist(t, a) == 0
  {
    if t != [] {
      var t', x := t[..|t| - 1], t[|t| - 1];
      SqDistZero(t', a);
      SquareSign(x - a);
      assert forall i :: 0 <= i < |t'| ==> t'[i] == t[i];
    }
  }

  lemma SquareSign(d: int)
    ensures d * d >= 0
    ensures d != 0 ==> d * d > 0
  {
    if d < 0 {
      calc {
        d * d;
      ==
        (-d) * (-d);
      >
        0;
      }
    }
  }

  /** The expansion sum (t_i - a)^2 = sum t_i^2 - 2 a sum t_i + |t| a^2. */
  lemma {:induction false} SqDistExpand(t: seq<Byte>, a: int)
    ensures SqDist(t, a) == SumSquares(t) - 2 * a * Sum(t) + |t| * a * a
  {
    if t != [] {
      var t', x := t[..|t| - 1], t[|t| - 1];
      SqDistExpand(t', a);
      ExpandStep(SqDist(t', a), SumSquares(t'), Sum(t'), |t'|, x, a,
                 SqDist(t, a), SumSquares(t), Sum(t), |t|);
    }
  }

  lemma ExpandStep(d: int, q: int, s: int, n: int, x: int, a: int,
                   d': int, q': int, s': int, n': int)
    requires d == q - 2 * a * s + n * a * a
    requires d' == d + (x - a) * (x - a)
    requires q' == q + x * x && s' == s + x && n' == n + 1
    ensures d' == q' - 2 * a * s' + n' * a * a
  {
  }

  /** Appending a byte a grows the spread by the squared distances of the
      earlier bytes from a (Lagrange's identity, one step). */
  lemma SpreadStep(t: seq<Byte>, a: Byte)
    ensures Spread(t + [a]) == Spread(t) + SqDist(t, a)
  {
    var u := t + [a];
    assert u[..|u| - 1] == t;
    SqDistExpand(t, a);
    SpreadPoly(|t|, SumSquares(t), Sum(t), a, SqDist(t, a),
               |u|, SumSquares(u), Sum(u));
  }

  lemma SpreadPoly(n: int, q: int, s: int, a: int, d: int, n': int, q': int, s': int)
    requires d == q - 2 * a * s + n * a * a
    requires n' == n + 1 && q' == q + a * a && s' == s + a
    ensures Factor(n', q', s') == Factor(n, q, s) + d
  {
  }

  /** The spread is never negative and is zero exactly when all bytes are
      equal: n sum t^2 - (sum t)^2 = sum over i < j of (t_i - t_j)^2. */
  lemma {:induction false} SpreadZeroIff(t: seq<Byte>)
    ensures Spread(t) >= 0
    ensures Spread(t) == 0 ==> AllEqual(t)
    ensures AllEqual(t) ==> Spread(t) == 0
    decreases |t|
  {
    if t != [] {
      var t', a := t[..|t| - 1], t[|t| - 1];
      assert t == t' + [a];
      SpreadZeroIff(t');
      SpreadStep(t', a);
      SqDistZero(t', a);
      AllEqualSnoc(t', a);
    }
  }

  /** A sequence with one more byte a is all equal exactly when the earlier
      bytes are all equal and all equal to a. */
  lemma AllEqualSnoc(t: seq<Byte>, a: Byte)
    ensures AllEqual(t + [a]) ==> AllEqual(t) && forall i :: 0 <= i < |t| ==> t[i] == a
    ensures AllEqual(t) && (forall i :: 0 <= i < |t| ==> t[i] == a) ==> AllEqual(t + [a])
  {
    var u := t + [a];
    if AllEqual(u) {
      assert forall i :: 0 <= i < |t| ==> t[i] == u[i] == u[0] == u[|t|];
    }
  }

  /** The coefficient, kept as its integer parts; Undefined when the
      denominator `sqrt(factorX * factorY)` is zero. */
  datatype Correlation =
    | Undefined
    | Coefficient(numerator: int, factorX: int, factorY: int)

  /** The integer parts of the coefficient
      `(n sumXY - sumX sumY) / sqrt((n sumX2 - sumX^2) (n sumY2 - sumY^2))`. */
  function CorrelationOf(s: seq<Byte>): (r: Correlation)
    ensures r.Coefficient? ==> r.factorX != 0 && r.factorY != 0
    ensures |s| < 3 ==> r.Undefined?
  {
    var n, t := PairCount(s), PairSums(s);
    Assemble(Numerator(n, t.sumXY, t.sumX, t.sumY), Factor(n, t.sumX2, t.sumX), Factor(n, t.sumY2, t.sumY))
  }

  /** The coefficient from its numerator and factors: undefined when the
      product under the square root is zero. */
  function Assemble(numerator: int, factorX: int, factorY: int): (r: Correlation)
    ensures r.Undefined? <==> factorX == 0 || factorY == 0
    ensures r.Coefficient? ==> r.numerator == numerator
  {
    if factorX * factorY == 0 then Undefined else Coefficient(numerator, factorX, factorY)
  }

  /** `n * sumXY - sumX * sumY`, the numerator of the coefficient. */
  function Numerator(n: int, sumXY: int, sumX: int, sumY: int): int
  {
    n * sumXY - sumX * sumY
  }

  /** The two factors are the spreads of the predecessors and the successors. */
  lemma FactorsAreSpreads(s: seq<Byte>)
    ensures Factor(PairCount(s), PairSums(s).sumX2, PairSums(s).sumX) == Spread(Predecessors(s))
    ensures Factor(PairCount(s), PairSums(s).sumY2, PairSums(s).sumY) == Spread(Successors(s))
  {
    PairSumsClosedForm(s);
  }

  /** When the coefficient is defined both factors are positive, so the
      source's square root has a positive argument. */
  lemma CorrelationFactorsPositive(s: seq<Byte>)
    ensures CorrelationOf(s).Coefficient? ==>
              CorrelationOf(s).factorX > 0 && CorrelationOf(s).factorY > 0
  {
    FactorsAreSpreads(s);
    SpreadZeroIff(Predecessors(s));
    SpreadZeroIff(Successors(s));
    ProductZero(Spread(Predecessors(s)), Spread(Successors(s)));
  }

  /** The coefficient is undefined exactly when all predecessors are equal or
      all successors are equal; in particular for fewer than 2 bytes. */
  lemma CorrelationUndefinedIff(s: seq<Byte>)
    ensures CorrelationOf(s).Undefined? ==> AllEqual(Predecessors(s)) || AllEqual(Successors(s))
    ensures AllEqual(Predecessors(s)) || AllEqual(Successors(s)) ==> CorrelationOf(s).Undefined?
  {
    FactorsAreSpreads(s);
    SpreadZeroIff(Predecessors(s));
    SpreadZeroIff(Successors(s));
    ProductZero(Spread(Predecessors(s)), Spread(Successors(s)));
  }

  lemma ProductZero(x: int, y: int)
    requires x >= 0 && y >= 0
    ensures x * y == 0 <==> x == 0 || y == 0
  {
    if x > 0 && y > 0 {
      MulPositive(x, y);
    }
  }

  lemma MulPositive(x: int, y: int)
    requires x > 0 && y > 0
    ensures x * y > 0
  {
  }

  /** A buffer whose bytes are all equal has an undefined coefficient. */
  lemma ConstantInputUndefined(s: seq<Byte>)
    requires AllEqual(s)
    ensures CorrelationOf(s) == Undefined
  {
    CorrelationUndefinedIff(s);
    if |s| > 0 {
      assert AllEqual(Predecessors(s)) by {
        var p := Predecessors(s);
        assert forall i :: 0 <= i < |p| ==> p[i] == s[i];
      }
    }
  }

  lemma {:induction false} DotConstantLeft(t: seq<Byte>, u: seq<Byte>, c: Byte)
    requires |t| == |u|
    requires forall i :: 0 <= i < |t| ==> t[i] == c
    ensures Dot(t, u) == c * Sum(u)
  {
    if t != [] {
      var t', u' := t[..|t| - 1], u[..|u| - 1];
      DotConstantLeft(t', u', c);
      Distribute(c, Sum(u'), u[|u| - 1]);
    }
  }

  lemma {:induction false} DotConstantRight(t: seq<Byte>, u: seq<Byte>, c: Byte)
    requires |t| == |u|
    requires forall i :: 0 <= i < |u| ==> u[i] == c
    ensures Dot(t, u) == c * Sum(t)
  {
    if t != [] {
      var t', u' := t[..|t| - 1], u[..|u| - 1];
      DotConstantRight(t', u', c);
      Distribute(c, Sum(t'), t[|t| - 1]);
    }
  }

  lemma Distribute(c: int, x: int, y: int)
    ensures c * (x + y) == c * x + c * y
  {
  }

  lemma NumeratorVanishes(n: int, c: int, sumXY: int, sumX: int, sumY: int)
    requires (sumX == c * n && sumXY == c * sumY) || (sumY == c * n && sumXY == c * sumX)
    ensures Numerator(n, sumXY, sumX, sumY) == 0
  {
  }

  /** When the coefficient is undefined its numerator is zero as well, so the
      source's quotient is 0/0, a NaN, which its report prints as undefined. */
  lemma UndefinedNumeratorZero(s: seq<Byte>)
    ensures CorrelationOf(s).Undefined? ==>
              Numerator(PairCount(s), PairSums(s).sumXY, PairSums(s).sumX, PairSums(s).sumY) == 0
  {
    CorrelationUndefinedIff(s);
    PairSumsClosedForm(s);
    var xs, ys := Predecessors(s), Successors(s);
    if |xs| == 0 {
      assert PairSums(s) == SerialSums(0, 0, 0, 0, 0);
    } else if AllEqual(xs) {
      ConstantSum(xs, xs[0]);
      DotConstantLeft(xs, ys, xs[0]);
      NumeratorVanishes(PairCount(s), xs[0], PairSums(s).sumXY, PairSums(s).sumX, PairSums(s).sumY);
    } else if AllEqual(ys) {
      ConstantSum(ys, ys[0]);
      DotConstantRight(xs, ys, ys[0]);
      NumeratorVanishes(PairCount(s), ys[0], PairSums(s).sumXY, PairSums(s).sumX, PairSums(s).sumY);
    }
  }

  /** The coefficient as the source computes it: `sumX * sumX`, `sumY * sumY`
      and `sumX * sumY` are products of two `unsigned long long` values and
      wrap modulo 2^64 before they are converted to double; the other
      operations are taken exactly here. */
  function CorrelationAsWritten(s: seq<Byte>): (r: Correlation)
    ensures r.Coefficient? ==> r.factorX != 0 && r.factorY != 0
  {
    var n, t := PairCount(s), PairSums(s);
    Assemble(n * t.sumXY - Wrap64(t.sumX * t.sumY),
             n * t.sumX2 - Wrap64(t.sumX * t.sumX), n * t.sumY2 - Wrap64(t.sumY * t.sumY))
  }

  /** As long as the products fit in 64 bits, the source computes the exact
      coefficient. */
  lemma CorrelationAsWrittenAgrees(s: seq<Byte>)
    requires PairSums(s).sumX * PairSums(s).sumX < Word64
    requires PairSums(s).sumY * PairSums(s).sumY < Word64
    requires PairSums(s).sumX * PairSums(s).sumY < Word64
    ensures CorrelationAsWritten(s) == CorrelationOf(s)
  {
    WrapFreeAssemble(PairCount(s), PairSums(s));
  }

  lemma WrapFreeAssemble(n: nat, t: SerialSums)
    requires t.sumX * t.sumX < Word64 && t.sumY * t.sumY < Word64 && t.sumX * t.sumY < Word64
    ensures Assemble(n * t.sumXY - Wrap64(t.sumX * t.sumY),
                     n * t.sumX2 - Wrap64(t.sumX * t.sumX), n * t.sumY2 - Wrap64(t.sumY * t.sumY))
         == Assemble(Numerator(n, t.sumXY, t.sumX, t.sumY), Factor(n, t.sumX2, t.sumX), Factor(n, t.sumY2, t.sumY))
  {
  }

  /** A buffer of equal bytes gives constant sums. */
  lemma {:induction false} ConstantPairSums(s: seq<Byte>, c: Byte)
    requires forall i :: 0 <= i < |s| ==> s[i] == c
    ensures PairSums(s) == SerialSums(c * PairCount(s), c * PairCount(s),
      c * c * PairCount(s), c * c * PairCount(s), c * c * PairCount(s))
  {
    if |s| >= 2 {
      var s' := s[..|s| - 1];
      ConstantPairSums(s', c);
      assert s[|s| - 2] == c && s[|s| - 1] == c;
      ConstantStep(c, PairCount(s'), PairCount(s));
    }
  }

  lemma ConstantStep(c: int, m: int, m': int)
    requires m' == m + 1
    ensures c * m + c == c * m'
    ensures c * c * m + c * c == c * c * m'
  {
  }

  /** 16843011 bytes of 0xff: every byte is equal, so the exact coefficient is
      undefined, but sumX = 255 * 16843010 exceeds 2^32 and `sumX * sumX`
      wraps, which leaves a positive denominator factor 2^64 and a defined
      coefficient. */
  lemma SerialCorrelationWrapsOnLongConstantInput(s: seq<Byte>)
    requires |s| == 16843011
    requires forall i :: 0 <= i < |s| ==> s[i] == 255
    ensures CorrelationOf(s) == Undefined
    ensures CorrelationAsWritten(s).Coefficient?
    ensures CorrelationAsWritten(s).factorX == Word64
  {
    ConstantInputUndefined(s);
    ConstantPairSums(s, 255);
    assert PairCount(s) == 16843010;
    assert PairSums(s) == SerialSums(4294967550, 4294967550, 1095216725250, 1095216725250, 1095216725250);
  }
}
