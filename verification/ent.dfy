/** The statistics engine: an object that owns a byte buffer and two mode
    flags, and whose `calculate_*` methods store each statistic in a field. */
module Engine {
  import opened Wrappers
  import opened Bytes
  import opened Frequency
  import opened ChiSquare
  import opened Mean
  import opened MonteCarlo
  import opened Serial

  class Ent {
    /** The buffer under test. */
    var data: array<Byte>
    /** Analyse the buffer as a stream of bits instead of bytes. */
    var streamOfBitsMode: bool
    /** Fold upper-case letters to lower case before analysing. */
    var foldCaseMode: bool
    /** The chi-square statistic; None where the source divides 0 by 0. */
    var chisquare: Option<real>
    /** The arithmetic mean of the bytes; None for the empty buffer. */
    var mean: Option<real>
    /** The Monte Carlo estimate of pi; None when there is no 6-byte group. */
    var piEstimate: Option<real>
    /** The integer parts of the serial correlation coefficient. */
    var serialCorrelation: Correlation

    /** An engine over the given bytes, both modes off and every result 0.
        The source's initial `serial_correlation = 0.0` is represented as the
        coefficient with numerator 0; its factors 1 and 1 are an arbitrary
        positive choice, since only the quotient 0 has a meaning before
        CalculateSerialCorrelation runs. */
    constructor (contents: seq<Byte>)
      ensures fresh(data) && data[..] == contents
      ensures !streamOfBitsMode && !foldCaseMode
      ensures chisquare == Some(0.0) && mean == Some(0.0) && piEstimate == Some(0.0)
      ensures serialCorrelation == Coefficient(0, 1, 1)
    {
      data := new Byte[|contents|](i requires 0 <= i < |contents| => contents[i]);
      streamOfBitsMode, foldCaseMode := false, false;
      chisquare, mean, piEstimate := Some(0.0), Some(0.0), Some(0.0);
      serialCorrelation := Coefficient(0, 1, 1);
    }

    /** The case-fold pre-pass: every upper-case ASCII letter of the buffer
        is replaced by its lower-case letter, in place. */
    method FoldCaseInPlace()
      modifies data
      ensures data[..] == FoldCase(old(data[..]))
    {
      var i := 0;
      while i != data.Length
        invariant 0 <= i <= data.Length
        invariant forall j :: 0 <= j < i ==> data[j] == FoldByte(old(data[j]))
        invariant forall j :: i <= j < data.Length ==> data[j] == old(data[j])
      {
        if IsUpper(data[i]) {
          data[i] := data[i] + 32;
        }
        i := i + 1;
      }
    }

    /** The byte-mode frequency table: entry b counts the bytes equal to b. */
    method TabulateBytes() returns (counts: seq<nat>)
      ensures counts == Counts(data[..], 256)
    {
      var observed := new nat[256](_ => 0);
      var i := 0;
      while i < data.Length
        invariant 0 <= i <= data.Length
        invariant forall v :: 0 <= v < 256 ==> observed[v] == CountOf(data[..i], v)
      {
        assert data[..i + 1] == data[..i] + [data[i]];
        forall v | 0 <= v < 256 {
          CountOfSnoc(data[..i], data[i], v);
        }
        observed[data[i]] := observed[data[i]] + 1;
        i := i + 1;
      }
      assert data[..i] == data[..];
      counts := observed[..];
    }

    /** The bit-mode frequency table: entry v counts the bits equal to v,
        taking bits 0 to 7 of each byte, least significant first. */
    method TabulateBits() returns (counts: seq<nat>)
      ensures counts == Counts(BitStream(data[..]), 2)
    {
      var observed := new nat[2](_ => 0);
      var i := 0;
      while i < data.Length
        invariant 0 <= i <= data.Length
        invariant forall v :: 0 <= v < 2 ==> observed[v] == CountOf(BitStream(data[..i]), v)
      {
        CountBits(observed, data[i]);
        assert data[..i + 1][..i] == data[..i];
        NextByteCounts(data[..i + 1]);
        i := i + 1;
      }
      assert data[..i] == data[..];
      counts := observed[..];
    }

    /** The inner loop of the bit-mode tabulation: adds the eight bits of one
        byte to a two-entry table. */
    static method CountBits(observed: array<nat>, byte: Byte)
      requires observed.Length == 2
      modifies observed
      ensures forall v :: 0 <= v < 2 ==> observed[v] == old(observed[v]) + CountOf(BitsOf(byte), v)
    {
      var bit := 0;
      while bit < 8
        invariant 0 <= bit <= 8
        invariant forall v :: 0 <= v < 2 ==> observed[v] == old(observed[v]) + CountOf(BitsOf(byte)[..bit], v)
      {
        var bitValue := ShiftAndMask(byte, bit);
        NextBitCounts(byte, bit);
        observed[bitValue] := observed[bitValue] + 1;
        bit := bit + 1;
      }
      assert BitsOf(byte)[..8] == BitsOf(byte);
    }

    /** The sum of the terms `(observed - expected)^2 / expected`, added in
        table order. */
    static method ChiSquareSum(observed: seq<nat>, expected: real) returns (chi: real)
      requires expected > 0.0
      ensures chi == Statistic(observed, expected)
    {
      chi := 0.0;
      var i := 0;
      while i < |observed|
        invariant 0 <= i <= |observed|
        invariant chi == Statistic(observed[..i], expected)
      {
        assert observed[..i + 1][..i] == observed[..i];
        var diff := observed[i] as real - expected;
        chi := chi + diff * diff / expected;
        i := i + 1;
      }
      assert observed[..i] == observed;
    }

    /** Stores the chi-square statistic of the buffer in the current mode. */
    method CalculateChiSquare()
      modifies this`chisquare
      ensures chisquare == ChiSquareOf(data[..], streamOfBitsMode)
    {
      var counts: seq<nat>;
      var expected: real;
      if streamOfBitsMode {
        expected := 8.0 * data.Length as real / 2.0;
        counts := TabulateBits();
      } else {
        expected := data.Length as real / 256.0;
        counts := TabulateBytes();
      }
      if data.Length == 0 {
        chisquare := None;
      } else {
        var chi := ChiSquareSum(counts, expected);
        chisquare := Some(chi);
      }
    }

    /** The sum of the bytes of the buffer. */
    method SumBytes() returns (sum: nat)
      ensures sum == Sum(data[..])
    {
      sum := 0;
      var i := 0;
      while i < data.Length
        invariant 0 <= i <= data.Length
        invariant sum == Sum(data[..i])
      {
        assert data[..i + 1][..i] == data[..i];
        sum := sum + data[i];
        i := i + 1;
      }
      assert data[..i] == data[..];
    }

    /** Stores the arithmetic mean of the bytes, whatever the mode. */
    method CalculateMean()
      modifies this`mean
      ensures mean == MeanOf(data[..])
    {
      var sum := SumBytes();
      if data.Length == 0 {
        mean := None;
      } else {
        mean := Some(sum as real / data.Length as real);
      }
    }

    /** Walks the 6-byte groups at offsets 0, 6, 12, ... while a whole group
        remains, and counts the groups and those whose point lies inside the
        circle. */
    method CountPiHits() returns (hits: nat, total: nat)
      ensures total == Groups(data[..])
      ensures hits == Hits(data[..], total)
    {
      hits, total := 0, 0;
      var i := 0;
      while i + 5 < data.Length
        invariant i == 6 * total && i <= data.Length
        invariant hits == Hits(data[..], total)
      {
        var x := data[i] as nat * 0x1_0000 + data[i + 1] as nat * 0x100 + data[i + 2];
        var y := data[i + 3] as nat * 0x1_0000 + data[i + 4] as nat * 0x100 + data[i + 5];
        assert x == Coordinate(data[..], 6 * total);
        assert y == Coordinate(data[..], 6 * total + 3);
        if x * x + y * y < RadiusSquared {
          hits := hits + 1;
        }
        total := total + 1;
        i := i + 6;
      }
    }

    /** Stores the Monte Carlo estimate `4 hits / total`. */
    method CalculatePi()
      modifies this`piEstimate
      ensures piEstimate == PiEstimate(data[..])
    {
      var hits, total := CountPiHits();
      if total == 0 {
        piEstimate := None;
      } else {
        piEstimate := Some(4.0 * hits as real / total as real);
      }
    }

    /** The five running sums over the pairs (data[i-1], data[i]). */
    method AccumulateSerialSums() returns (sums: SerialSums)
      ensures sums == PairSums(data[..])
    {
      sums := SerialSums(0, 0, 0, 0, 0);
      if data.Length == 0 {
        return;
      }
      var i := 1;
      while i < data.Length
        invariant 1 <= i <= data.Length
        invariant sums == PairSums(data[..i])
      {
        PairSumsStep(data[..], i);
        assert data[..][..i + 1] == data[..i + 1] && data[..][..i] == data[..i];
        var x, y := data[i - 1] as nat, data[i] as nat;
        ByteProduct(x, y);
        ByteProduct(x, x);
        ByteProduct(y, y);
        sums := SerialSums(sums.sumX + x, sums.sumY + y, sums.sumXY + x * y,
                           sums.sumX2 + x * x, sums.sumY2 + y * y);
        i := i + 1;
      }
      assert data[..i] == data[..];
    }

    /** Stores the integer parts of the serial correlation coefficient. */
    method CalculateSerialCorrelation()
      modifies this`serialCorrelation
      ensures serialCorrelation == CorrelationOf(data[..])
    {
      var t := AccumulateSerialSums();
      var n := if data.Length == 0 then 0 else data.Length - 1;
      var fx := n * t.sumX2 - t.sumX * t.sumX;
      var fy := n * t.sumY2 - t.sumY * t.sumY;
      if fx * fy == 0 {
        serialCorrelation := Undefined;
      } else {
        serialCorrelation := Coefficient(n * t.sumXY - t.sumX * t.sumY, fx, fy);
      }
    }

    /** Folds the buffer when asked to, then computes every statistic of the
        resulting buffer. */
    method Calculate()
      modifies this, data
      ensures data == old(data)
      ensures data[..] == if old(foldCaseMode) then FoldCase(old(data[..])) else old(data[..])
      ensures streamOfBitsMode == old(streamOfBitsMode) && foldCaseMode == old(foldCaseMode)
      ensures chisquare == ChiSquareOf(data[..], streamOfBitsMode)
      ensures mean == MeanOf(data[..])
      ensures piEstimate == PiEstimate(data[..])
      ensures serialCorrelation == CorrelationOf(data[..])
    {
      if foldCaseMode {
        FoldCaseInPlace();
      }
      CalculateChiSquare();
      CalculateMean();
      CalculatePi();
      CalculateSerialCorrelation();
    }
  }

  /** Taking one more bit of a byte adds one to the count of that bit's value. */
  lemma NextBitCounts(b: Byte, bit: nat)
    requires bit < 8
    ensures forall v :: CountOf(BitsOf(b)[..bit + 1], v)
                        == CountOf(BitsOf(b)[..bit], v) + (if Bit(b, bit) == v then 1 else 0)
  {
    assert BitsOf(b)[..bit + 1] == BitsOf(b)[..bit] + [Bit(b, bit)];
    forall v {
      CountOfSnoc(BitsOf(b)[..bit], Bit(b, bit), v);
    }
  }

  /** Counting over the bit stream of a nonempty buffer is counting over all
      but its last byte, plus counting over the last byte's eight bits. */
  lemma NextByteCounts(s: seq<Byte>)
    requires |s| > 0
    ensures forall v :: CountOf(BitStream(s), v)
                        == CountOf(BitStream(s[..|s| - 1]), v) + CountOf(BitsOf(s[|s| - 1]), v)
  {
    forall v {
      CountOfAppend(BitStream(s[..|s| - 1]), BitsOf(s[|s| - 1]), v);
    }
  }

  /** Extending a prefix by one byte adds one pair to the running sums. */
  lemma PairSumsStep(s: seq<Byte>, i: nat)
    requires 1 <= i < |s|
    ensures PairSums(s[..i + 1]) == AddPair(PairSums(s[..i]), s[i - 1], s[i])
  {
    assert s[..i + 1][..i] == s[..i];
  }
}
