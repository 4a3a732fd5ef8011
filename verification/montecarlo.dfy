/** The Monte Carlo estimate of pi: the buffer is cut into 6-byte groups, each
    group gives a point (x, y) of the square [0, 2^24)^2, and the share of
    points inside the quarter circle of radius 2^24 estimates pi / 4. */
module MonteCarlo {
  import opened Wrappers
  import opened Float
  import opened Bytes

  /** The squared radius `1 << 48`. */
  const RadiusSquared: nat := 0x1_0000_0000_0000

  /** One past the largest coordinate: 2^24. */
  const CoordinateLimit: nat := 0x100_0000

  /** The big-endian 24-bit value of bytes i, i+1, i+2: the source's
      `b0 << 16 | b1 << 8 | b2`, whose three parts do not overlap. */
  function Coordinate(s: seq<Byte>, i: nat): (c: nat)
    requires i + 3 <= |s|
    ensures c < CoordinateLimit
  {
    s[i] as int * 0x1_0000 + s[i + 1] as int * 0x100 + s[i + 2] as int
  }

  /** On byte-sized operands in an `unsigned long long`, the source's
      `b0 << 16 | b1 << 8 | b2` is the sum of the three non-overlapping parts
      that Coordinate adds up. */
  lemma ShiftOrIsSum(a: bv64, b: bv64, c: bv64)
    requires a < 256 && b < 256 && c < 256
    ensures (a << 16) | (b << 8) | c == a * 0x1_0000 + b * 0x100 + c
  {
  }

  /** The point lies strictly inside the quarter circle. */
  predicate InCircle(x: nat, y: nat)
  {
    x * x + y * y < RadiusSquared
  }

  /** Whether group j (bytes 6j .. 6j+5) is a hit. */
  function GroupHit(s: seq<Byte>, j: nat): (h: nat)
    requires 6 * j + 6 <= |s|
    ensures h <= 1
  {
    if InCircle(Coordinate(s, 6 * j), Coordinate(s, 6 * j + 3)) then 1 else 0
  }

  /** The hits among the first g groups. */
  function Hits(s: seq<Byte>, g: nat): (h: nat)
    requires 6 * g <= |s|
    ensures h <= g
  {
    if g == 0 then 0 else Hits(s, g - 1) + GroupHit(s, g - 1)
  }

  /** The number of whole groups; the trailing 0 to 5 bytes are not used. */
  function Groups(s: seq<Byte>): (g: nat)
    ensures 6 * g <= |s| < 6 * g + 6
  {
    |s| / 6
  }

  /** The estimate `4 hits / total`; None when there is no whole group. */
  function PiEstimate(s: seq<Byte>): (p: Option<real>)
    ensures p.None? <==> |s| < 6
    ensures p.Some? ==> 0.0 <= p.value <= 4.0
  {
    var total := Groups(s);
    if total == 0 then None
    else
      var hits := Hits(s, total);
      RatioBounds(hits as real, total as real);
      Some(4.0 * hits as real / total as real)
  }

  lemma RatioBounds(h: real, t: real)
    requires 0.0 <= h <= t && t > 0.0
    ensures 0.0 <= 4.0 * h / t <= 4.0
  {
  }

  /** Each squared coordinate is below 2^48, so `x*x + y*y` is below 2^49 and
      the source's 64-bit sum cannot wrap. */
  lemma DistanceFitsIn64Bits(s: seq<Byte>, j: nat)
    requires 6 * j + 6 <= |s|
    ensures Coordinate(s, 6 * j) * Coordinate(s, 6 * j) < RadiusSquared
    ensures Coordinate(s, 6 * j + 3) * Coordinate(s, 6 * j + 3) < RadiusSquared
    ensures Coordinate(s, 6 * j) * Coordinate(s, 6 * j)
          + Coordinate(s, 6 * j + 3) * Coordinate(s, 6 * j + 3) < 2 * RadiusSquared < Word64
  {
    SquareBelow(Coordinate(s, 6 * j));
    SquareBelow(Coordinate(s, 6 * j + 3));
  }

  lemma SquareBelow(x: nat)
    requires x < CoordinateLimit
    ensures x * x < RadiusSquared
  {
    var m := CoordinateLimit - 1;
    calc {
      x * x;
    <=  { MulMonotone(x, m, x); }
      m * x;
    <=  { MulMonotone(x, m, m); }
      m * m;
    <
      RadiusSquared;
    }
  }

  /** A buffer of 6 to 11 bytes has exactly one group, so its estimate is
      4 (a hit) or 0 (a miss), never anything in between. */
  lemma SingleGroupEstimate(s: seq<Byte>)
    requires 6 <= |s| < 12
    ensures Groups(s) == 1
    ensures PiEstimate(s) == Some(0.0) || PiEstimate(s) == Some(4.0)
    ensures PiEstimate(s) == Some(4.0)
        <==> InCircle(Coordinate(s, 0), Coordinate(s, 3))
  {
    assert Hits(s, 1) == GroupHit(s, 0);
  }

  /** The loop bound `data.size() - 5` as the source computes it, in the
      64-bit unsigned `size_t`. */
  function PiLoopBoundAsWritten(n: nat): (r: nat)
    ensures r < Word64
    ensures 5 <= n < Word64 + 5 ==> r == n - 5
  {
    (n - 5) % Word64
  }

  /** Below 5 bytes the bound wraps round to nearly 2^64, so the guard
      admits a group at every offset up to the end of the buffer and past it,
      although not even the first group, bytes 0 to 5, lies inside. */
  lemma PiLoopBoundUnderflows(n: nat)
    requires n < 5
    ensures PiLoopBoundAsWritten(n) == Word64 - 5 + n
    ensures n + 6 < PiLoopBoundAsWritten(n)
  {
  }

  /** From 5 bytes on (and below 2^64) the source's guard `i < size - 5` is
      the guard `i + 5 < size` of the model. */
  lemma PiLoopBoundAgrees(n: nat, i: nat)
    requires 5 <= n < Word64
    ensures i < PiLoopBoundAsWritten(n) <==> i + 5 < n
  {
  }

  /** The estimate as the source computes it, `4.0 * hits / total` in
      doubles, for the buffers on which its loop stays inside the data. */
  function PiEstimateAsWritten(s: seq<Byte>): (r: Double)
    requires |s| >= 5
    ensures r.NaN? <==> |s| < 6
    ensures r.Finite? <==> |s| >= 6
    ensures r.Finite? ==> 0.0 <= r.value <= 4.0
  {
    var hits, total := Hits(s, Groups(s)) as real, Groups(s) as real;
    if total == 0.0 then Divide(4.0 * hits, total)
    else
      RatioBounds(hits, total);
      Divide(4.0 * hits, total)
  }

  /** With exactly 5 bytes there is no group and the source divides 0 by 0. */
  lemma PiEstimateAsWrittenNaN(s: seq<Byte>)
    requires |s| == 5
    ensures PiEstimateAsWritten(s) == NaN
  {
  }

  /** From 6 bytes on the source's quotient is the model's estimate. */
  lemma PiEstimateAsWrittenAgrees(s: seq<Byte>)
    requires |s| >= 6
    ensures PiEstimateAsWritten(s) == Finite(PiEstimate(s).value)
  {
  }
}
