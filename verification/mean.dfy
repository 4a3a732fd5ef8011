/** The arithmetic mean of the bytes of the buffer, over exact rationals. It
    is always taken over the raw bytes, whatever the unit of analysis. */
module Mean {
  import opened Wrappers
  import opened Float
  import opened Bytes

  /** The sum of the bytes, accumulated front to back. */
  function Sum(s: seq<Byte>): (r: nat)
    ensures r <= 255 * |s|
  {
    if s == [] then 0 else Sum(s[..|s| - 1]) + s[|s| - 1]
  }

  /** The mean `sum / |s|`; None for the empty buffer. */
  function MeanOf(s: seq<Byte>): (m: Option<real>)
    ensures m.None? <==> |s| == 0
    ensures m.Some? ==> 0.0 <= m.value <= 255.0
  {
    if |s| == 0 then None
    else
      QuotientBounds(Sum(s) as real, |s| as real);
      Some(Sum(s) as real / |s| as real)
  }

  lemma QuotientBounds(x: real, n: real)
    requires n > 0.0 && 0.0 <= x <= 255.0 * n
    ensures 0.0 <= x / n <= 255.0
  {
  }

  lemma ScaledQuotient(c: int, n: int)
    requires n > 0
    ensures (c * n) as real / n as real == c as real
  {
    assert (c * n) as real == c as real * n as real;
  }

  /** A buffer holding one value c throughout sums to c times its length. */
  lemma {:induction false} ConstantSum(s: seq<Byte>, c: Byte)
    requires forall i :: 0 <= i < |s| ==> s[i] == c
    ensures Sum(s) == c * |s|
  {
    if s != [] {
      ConstantSum(s[..|s| - 1], c);
    }
  }

  /** The mean of a nonempty buffer holding one value c throughout is c: all
      0x00 gives 0, all 0xFF gives 255. */
  lemma ConstantMean(s: seq<Byte>, c: Byte)
    requires |s| > 0
    requires forall i :: 0 <= i < |s| ==> s[i] == c
    ensures MeanOf(s) == Some(c as real)
  {
    ConstantSum(s, c);
    ScaledQuotient(c, |s|);
  }

  /** The mean as the source computes it, `sum / data.size()` in doubles. */
  function MeanAsWritten(s: seq<Byte>): (r: Double)
    ensures r.NaN? <==> |s| == 0
    ensures r.Finite? <==> |s| > 0
    ensures r.Finite? ==> 0.0 <= r.value <= 255.0
  {
    var sum, size := Sum(s) as real, |s| as real;
    if size == 0.0 then Divide(sum, size)
    else
      QuotientBounds(sum, size);
      Divide(sum, size)
  }

  /** On the empty buffer the source divides 0 by 0 and reports NaN. */
  lemma EmptyMeanIsNaN()
    ensures MeanAsWritten([]) == NaN
  {
  }

  /** On every other buffer the source's quotient is the model's mean. */
  lemma MeanAsWrittenAgrees(s: seq<Byte>)
    requires |s| > 0
    ensures MeanAsWritten(s) == Finite(MeanOf(s).value)
  {
  }
}
