/** The chi-square goodness-of-fit statistic against the uniform distribution,
    over exact rationals. The p-value derived from it is not part of this model. */
module ChiSquare {
  import opened Wrappers
  import opened Bytes
  import opened Frequency
  import opened Float

  /** One symbol's contribution `diff * diff / expected`, where diff is the
      observed count minus the expected count. */
  function Term(diff: real, expected: real): (r: real)
    requires expected > 0.0
    ensures r >= 0.0
  {
    diff * diff / expected
  }

  /** The statistic over a frequency table, summed in table order. */
  function Statistic(observed: seq<nat>, expected: real): (chi: real)
    requires expected > 0.0
    ensures chi >= 0.0
  {
    if observed == [] then 0.0
    else
      var diff := observed[|observed| - 1] as real - expected;
      TermZeroIff(diff, expected);
      Statistic(observed[..|observed| - 1], expected) + Term(diff, expected)
  }

  /** The expected count of each symbol: |s| / 256 bytes in byte mode,
      8 |s| / 2 bits in bit mode. */
  function Expected(s: seq<Byte>, bitMode: bool): (e: real)
    ensures e >= 0.0
    ensures e > 0.0 <==> |s| > 0
    ensures e * Alphabet(bitMode) as real == |Symbols(s, bitMode)| as real
  {
    if bitMode then 8.0 * |s| as real / 2.0 else |s| as real / 256.0
  }

  /** The chi-square statistic of a buffer in the given mode; None for the
      empty buffer, where the expected count is zero. */
  function ChiSquareOf(s: seq<Byte>, bitMode: bool): (r: Option<real>)
    ensures r.None? <==> |s| == 0
    ensures r.Some? ==> r.value >= 0.0
  {
    if |s| == 0 then None
    else Some(Statistic(Counts(Symbols(s, bitMode), Alphabet(bitMode)), Expected(s, bitMode)))
  }

  lemma PositiveQuotient(x: real, e: real)
    requires x > 0.0 && e > 0.0
    ensures x / e > 0.0
  {
    assert (x / e) * e == x;
  }

  lemma PositiveProduct(x: real, y: real)
    requires x > 0.0 && y > 0.0
    ensures x * y > 0.0
  {
  }

  lemma PositiveSquareQuotient(d: real, e: real)
    requires d > 0.0 && e > 0.0
    ensures d * d / e > 0.0
  {
    PositiveQuotient(d, e);
    PositiveProduct(d, d / e);
    calc {
      d * d / e;
    ==
      d * (d / e);
    >
      0.0;
    }
  }

  lemma NonzeroSquareQuotient(d: real, e: real)
    requires d != 0.0 && e > 0.0
    ensures d * d / e > 0.0
  {
    if d > 0.0 {
      PositiveSquareQuotient(d, e);
    } else {
      PositiveSquareQuotient(-d, e);
      calc {
        d * d / e;
      ==
        (-d) * (-d) / e;
      >
        0.0;
      }
    }
  }

  /** A term is never negative and vanishes exactly when the observed count
      is the expected one. */
  lemma TermZeroIff(diff: real, expected: real)
    requires expected > 0.0
    ensures Term(diff, expected) >= 0.0
    ensures Term(diff, expected) == 0.0 <==> diff == 0.0
  {
    if diff != 0.0 {
      NonzeroSquareQuotient(diff, expected);
    }
  }

  /** The statistic is zero exactly when every count equals the expected count. */
  lemma {:induction false} StatisticZeroIff(observed: seq<nat>, expected: real)
    requires expected > 0.0
    ensures Statistic(observed, expected) == 0.0
        <==> forall i :: 0 <= i < |observed| ==> observed[i] as real == expected
    decreases |observed|
  {
    if observed != [] {
      var init, last := observed[..|observed| - 1], observed[|observed| - 1];
      StatisticZeroIff(init, expected);
      TermZeroIff(last as real - expected, expected);
      assert forall i :: 0 <= i < |init| ==> init[i] == observed[i];
    }
  }

  /** The statistic of a frequency table is zero exactly when every count
      is the expected one. */
  lemma CountsStatisticZeroIff(sym: seq<int>, k: nat, expected: real)
    requires expected > 0.0
    ensures Statistic(Counts(sym, k), expected) == 0.0 ==>
              forall v :: 0 <= v < k ==> CountOf(sym, v) as real == expected
    ensures (forall v :: 0 <= v < k ==> CountOf(sym, v) as real == expected) ==>
              Statistic(Counts(sym, k), expected) == 0.0
  {
    var c := Counts(sym, k);
    StatisticZeroIff(c, expected);
    if Statistic(c, expected) == 0.0 {
      forall v | 0 <= v < k
        ensures CountOf(sym, v) as real == expected
      {
        assert c[v] == CountOf(sym, v);
      }
    }
    if forall v :: 0 <= v < k ==> CountOf(sym, v) as real == expected {
      forall i | 0 <= i < |c|
        ensures c[i] as real == expected
      {
        assert c[i] == CountOf(sym, i);
      }
    }
  }

  /** For a nonempty buffer the statistic is zero exactly when each symbol of
      the alphabet occurs the expected number of times. */
  lemma ChiSquareZeroIff(s: seq<Byte>, bitMode: bool)
    requires |s| > 0
    ensures ChiSquareOf(s, bitMode) == Some(0.0) ==>
              forall v :: 0 <= v < Alphabet(bitMode) ==>
                CountOf(Symbols(s, bitMode), v) as real == Expected(s, bitMode)
    ensures (forall v :: 0 <= v < Alphabet(bitMode) ==>
               CountOf(Symbols(s, bitMode), v) as real == Expected(s, bitMode)) ==>
              ChiSquareOf(s, bitMode) == Some(0.0)
  {
    CountsStatisticZeroIff(Symbols(s, bitMode), Alphabet(bitMode), Expected(s, bitMode));
  }

  /** Over a two-symbol alphabet with 2 half symbols in all, the statistic
      is zero exactly when symbol 1 occurs half times. */
  lemma TwoSymbolZeroIff(sym: seq<int>, half: nat)
    requires half > 0
    requires CountOf(sym, 0) + CountOf(sym, 1) == 2 * half
    ensures Statistic(Counts(sym, 2), half as real) == 0.0 <==> CountOf(sym, 1) == half
  {
    CountsStatisticZeroIff(sym, 2, half as real);
    if CountOf(sym, 1) == half {
      assert forall v :: 0 <= v < 2 ==> CountOf(sym, v) as real == half as real;
    }
  }

  /** In bit mode the statistic is zero exactly when half of the bits are set. */
  lemma BitModeZeroIff(s: seq<Byte>)
    requires |s| > 0
    ensures ChiSquareOf(s, true) == Some(0.0) <==> SetBits(s) == 4 * |s|
  {
    OnesAreSetBits(s);
    assert Expected(s, true) == (4 * |s|) as real;
    TwoSymbolZeroIff(BitStream(s), 4 * |s|);
  }

  /** A buffer holding every byte value exactly once has statistic zero. */
  lemma {:induction false} EachValueOnceGivesZero(s: seq<Byte>)
    requires forall v :: 0 <= v < 256 ==> CountOf(s, v) == 1
    ensures |s| == 256
    ensures ChiSquareOf(s, false) == Some(0.0)
  {
    var c := Counts(s, 256);
    CountsSumToLength(s, 256);
    OnesTableSum(c);
    ChiSquareZeroIff(s, false);
  }

  /** The buffer 0, 1, ..., 255 is such a buffer. */
  lemma AscendingBytesGiveZero()
    ensures ChiSquareOf(Ascending(256), false) == Some(0.0)
  {
    forall v | 0 <= v < 256 {
      AscendingCountsOne(256, v);
    }
    EachValueOnceGivesZero(Ascending(256));
  }

  /** The statistic as the source accumulates it in doubles: every term is
      `diff * diff / expected` with no guard on a zero expected count, so a
      table that starts with a zero count against a zero expectation opens
      with 0/0, and the NaN absorbs every later term. */
  function StatisticAsWritten(observed: seq<nat>, expected: real): (r: Double)
    ensures expected == 0.0 && observed != [] && observed[0] == 0 ==> r.NaN?
  {
    if observed == [] then Finite(0.0)
    else
      var diff := observed[|observed| - 1] as real - expected;
      Plus(StatisticAsWritten(observed[..|observed| - 1], expected), Divide(diff * diff, expected))
  }

  /** With a positive expected count the double accumulation is the exact
      statistic (rounding aside). */
  lemma {:induction false} StatisticAsWrittenAgrees(observed: seq<nat>, expected: real)
    requires expected > 0.0
    ensures StatisticAsWritten(observed, expected) == Finite(Statistic(observed, expected))
  {
    if observed != [] {
      StatisticAsWrittenAgrees(observed[..|observed| - 1], expected);
    }
  }

  /** The chi-square statistic as the source computes it in either mode. */
  function ChiSquareAsWritten(s: seq<Byte>, bitMode: bool): (r: Double)
    ensures r.NaN? <==> |s| == 0
    ensures r.Finite? <==> |s| > 0
  {
    var observed, expected := Counts(Symbols(s, bitMode), Alphabet(bitMode)), Expected(s, bitMode);
    if |s| == 0 then StatisticAsWritten(observed, expected)
    else
      StatisticAsWrittenAgrees(observed, expected);
      StatisticAsWritten(observed, expected)
  }

  /** On the empty buffer both modes divide 0 by an expected count of 0 and
      store NaN. */
  lemma EmptyChiSquareIsNaN(bitMode: bool)
    ensures ChiSquareAsWritten([], bitMode) == NaN
  {
  }

  /** On every other buffer the source's statistic is the model's. */
  lemma ChiSquareAsWrittenAgrees(s: seq<Byte>, bitMode: bool)
    requires |s| > 0
    ensures ChiSquareAsWritten(s, bitMode) == Finite(ChiSquareOf(s, bitMode).value)
  {
    StatisticAsWrittenAgrees(Counts(Symbols(s, bitMode), Alphabet(bitMode)), Expected(s, bitMode));
  }
}
