# ent statistics engine in Dafny

This project models the statistics engine of `ent`, the class `Ent::Ent` in
`ent.hpp`. The engine owns a buffer of bytes and reads it either as bytes or as
a stream of bits. In bit mode each byte gives its bits 0 to 7, least significant
first. The engine can first fold upper-case ASCII letters to lower case, in
place. It then computes a set of statistics and stores each one in a field.

The model covers the parts of that computation that are exact over integers and
rationals:

- the case-fold pre-pass;
- the byte and bit frequency tables;
- the chi-square statistic against the uniform distribution;
- the arithmetic mean;
- the Monte Carlo estimate of pi from 6-byte groups;
- the five serial-correlation sums and the integer numerator and denominator
  factors of the correlation coefficient.

The engine is the class `Engine.Ent` (`ent.dfy`). Its fields are the buffer
(`array<Byte>`), the two mode flags and the results. Its methods keep the
source's loops. Each method is proved against a pure function in one of these
modules:

| module | file | content |
|---|---|---|
| `Bytes` | `bytes.dfy` | bytes, bit extraction, the bit stream, the ASCII case fold, 64-bit wrap |
| `Frequency` | `frequency.dfy` | symbol counts, frequency tables, set-bit totals |
| `ChiSquare` | `chisquare.dfy` | the statistic over exact reals and when it is zero |
| `Mean` | `mean.dfy` | the byte sum and the mean |
| `MonteCarlo` | `montecarlo.dfy` | coordinates, hits, groups, the pi estimate, the loop bound |
| `Serial` | `serial.dfy` | pair sums, their closed forms, the factors, when the coefficient is undefined |
| `Float` | `float.dfy` | the outcome of an IEEE division by zero (NaN, infinities) |
| `Wrappers` | `wrappers.dfy` | `Option` |

The model gives a degenerate result explicitly. Chi-square and the mean are
`None` on the empty buffer. The pi estimate is `None` when there is no complete
6-byte group. The correlation is `Undefined` when its denominator is zero.
The source divides by zero and stores a NaN in these cases: chi-square and the
mean on the empty buffer, pi on a buffer of exactly 5 bytes, and the
correlation when its denominator is zero and the products of sums do not wrap.
On fewer than 5 bytes the pi loop reads outside the buffer before dividing,
and on very long inputs the correlation's products of sums wrap. The NaN cases
of chi-square, the mean and pi, the out-of-bounds read and the wrap are listed
under "## Findings". The correlation's 0/0 is not, since the printer has a
branch for an undefined coefficient (ent.hpp:73-77). The code assigns no
sentinel, though: an undefined coefficient is stored as NaN, and the printer's
test `serial_correlation >= -99999` (ent.hpp:73) fails for it.

## Model

| member | source | states |
|---|---|---|
| Bytes.Bit | ent.hpp:161 | a bit of a byte is 0 or 1 |
| Bytes.BitIsShiftAndMask | ent.hpp:161 | `(byte >> bit) & 1` on an 8-bit value is bit `bit` of the byte |
| Bytes.ShiftAndMask | ent.hpp:207 | the source's shift-and-mask expression yields bit k of the byte |
| Bytes.BitsOf | ent.hpp:160-163 | one byte contributes 8 symbols, symbol k being bit k |
| Bytes.BitStream | ent.hpp:159-164 | the bit stream of a buffer has 8 symbols per byte; symbol j is bit j mod 8 of byte j div 8 |
| Bytes.FoldCase | ent.hpp:322-328 | the fold keeps the length, maps each of bytes 65..90 to itself plus 32, leaves every other byte unchanged, and leaves no byte in 65..90 |
| Bytes.FoldByte | ent.hpp:324-326 | one byte is folded exactly when it is an upper-case letter A to Z (`Bytes.IsUpper`), which then becomes the letter 32 above it; the result is never upper case |
| Bytes.FoldCaseIdempotent | ent.hpp:322-328 | folding twice is folding once |
| Bytes.Wrap64 | ent.hpp:295 | reduction to a 64-bit unsigned word lies below 2^64 and keeps values already below it |
| Float.Divide | ent.hpp:252 | a double quotient is finite exactly when the divisor is nonzero, and then times the divisor gives the dividend; it is NaN exactly for 0/0 and +infinity exactly for a positive dividend over 0 |
| Float.Plus | ent.hpp:236 | a double sum with a NaN operand is NaN, and the sum of two finite values is finite |
| Frequency.CountOf | ent.hpp:181-183 | a count is at most the length, and it is zero exactly when the value never occurs |
| Frequency.Counts | ent.hpp:227-231 | the table over an alphabet of k symbols has k entries, each at most the number of symbols, and every symbol that occurs in the alphabet has a positive entry |
| Frequency.CountOfSnoc | ent.hpp:182 | appending one symbol adds one to its own count and leaves every other count unchanged |
| Frequency.CountsSumToLength | ent.hpp:229-231 | when every symbol lies in the alphabet, the table entries sum to the number of symbols |
| Frequency.TableSumsToSymbolTotal | ent.hpp:179-183 | in either mode the table sums to the number of symbols: the byte count, or 8 times it in bit mode |
| Frequency.OnesAreSetBits | ent.hpp:203-210 | in bit mode count[1] is the number of set bits of the buffer and count[0] + count[1] is 8 times its length |
| Frequency.BitsOfCounts | ent.hpp:206-209 | one byte adds its population count to count[1] and 8 minus it to count[0] |
| ChiSquare.Statistic | ent.hpp:233-237 | the sum of the terms `(observed - expected)^2 / expected` is never negative |
| ChiSquare.Term | ent.hpp:214-215 | one term `diff * diff / expected` with a positive expected count is never negative |
| ChiSquare.Expected | ent.hpp:227 | the expected count (bit mode: ent.hpp:202) is never negative, is positive exactly for a nonempty buffer, and times the alphabet size gives the number of symbols |
| ChiSquare.ChiSquareOf | ent.hpp:200-237 | the statistic is undefined exactly for the empty buffer, and otherwise it is at least 0 |
| ChiSquare.TermZeroIff | ent.hpp:214-215 | one term is at least 0, and it is 0 exactly when the count equals the expected count |
| ChiSquare.StatisticZeroIff | ent.hpp:233-237 | the statistic of a table is 0 exactly when every entry equals the expected count |
| ChiSquare.CountsStatisticZeroIff | ent.hpp:229-237 | the statistic of a frequency table is 0 exactly when every symbol of the alphabet occurs the expected number of times |
| ChiSquare.ChiSquareZeroIff | ent.hpp:202-237 | on a nonempty buffer, the statistic is 0 in either mode exactly when every symbol occurs length / 256 times (bytes) or 8 length / 2 times (bits) |
| ChiSquare.TwoSymbolZeroIff | ent.hpp:212-216 | over two symbols totalling 2h, the statistic is 0 exactly when symbol 1 occurs h times |
| ChiSquare.BitModeZeroIff | ent.hpp:201-216 | in bit mode the statistic is 0 exactly when half of all bits are set |
| ChiSquare.EachValueOnceGivesZero | ent.hpp:226-237 | a buffer holding every byte value exactly once has 256 bytes and statistic 0 |
| ChiSquare.AscendingBytesGiveZero | ent.hpp:226-237 | the buffer 0, 1, ..., 255 has byte-mode statistic 0 |
| ChiSquare.StatisticAsWritten | ent.hpp:233-236 | accumulated in doubles, a table whose first count is 0 against an expected count of 0 sums to NaN |
| ChiSquare.StatisticAsWrittenAgrees | ent.hpp:233-236 | with a positive expected count, the double accumulation is the exact statistic |
| ChiSquare.ChiSquareAsWritten | ent.hpp:200-237 | as written, the statistic in either mode is NaN exactly for the empty buffer and finite otherwise |
| ChiSquare.EmptyChiSquareIsNaN | ent.hpp:235-236 | as written, the empty buffer gives 0/0 in the first term and a NaN statistic, in either mode |
| ChiSquare.ChiSquareAsWrittenAgrees | ent.hpp:200-237 | on a nonempty buffer, the source's statistic is the model's |
| Mean.Sum | ent.hpp:251 | the byte sum is at most 255 times the length |
| Mean.MeanOf | ent.hpp:250-253 | the mean is undefined exactly for the empty buffer, and otherwise it lies in [0, 255] |
| Mean.ConstantSum | ent.hpp:251 | a buffer of bytes all equal to c sums to c times its length |
| Mean.ConstantMean | ent.hpp:250-253 | a nonempty buffer of bytes all equal to c has mean c; all 0x00 gives 0 and all 0xFF gives 255 |
| Mean.MeanAsWritten | ent.hpp:252 | as written, the mean is NaN exactly for the empty buffer, and otherwise a finite value in [0, 255] |
| Mean.EmptyMeanIsNaN | ent.hpp:252 | as written, the empty buffer's mean is 0/0, a NaN |
| Mean.MeanAsWrittenAgrees | ent.hpp:252 | on a nonempty buffer, the source's quotient is the model's mean |
| MonteCarlo.Coordinate | ent.hpp:262-263 | a coordinate built from three big-endian bytes lies below 2^24 |
| MonteCarlo.GroupHit | ent.hpp:262-269 | one group adds at most one hit: 1 when its point is inside the circle of radius 2^24 (`MonteCarlo.InCircle`), otherwise 0 |
| MonteCarlo.Groups | ent.hpp:261-271 | the loop visits floor(size / 6) groups: their 6 bytes each fit in the buffer, and the 0 to 5 bytes left over do not form another group |
| MonteCarlo.ShiftOrIsSum | ent.hpp:262-263 | on byte-sized 64-bit operands, `b0 << 16` or-ed with `b1 << 8` and with `b2` equals `b0 * 2^16 + b1 * 2^8 + b2` |
| MonteCarlo.Hits | ent.hpp:267-270 | the hits among g groups are at most g |
| MonteCarlo.PiEstimate | ent.hpp:255-273 | the estimate is undefined exactly when there are fewer than 6 bytes, and otherwise it lies in [0, 4] |
| MonteCarlo.DistanceFitsIn64Bits | ent.hpp:265 | x*x and y*y are each below 2^48, and x*x + y*y is below 2^49 and below 2^64, so the 64-bit sum does not wrap |
| MonteCarlo.SingleGroupEstimate | ent.hpp:261-273 | with 6 to 11 bytes there is one group and the estimate is 0 or 4, and it is 4 exactly when the point is inside the circle |
| MonteCarlo.PiLoopBoundUnderflows | ent.hpp:261 | below 5 bytes `data.size() - 5` wraps to 2^64 - 5 + size, beyond every offset of the buffer |
| MonteCarlo.PiLoopBoundAgrees | ent.hpp:261 | from 5 bytes on, the guard `i < size - 5` is the guard `i + 5 < size` |
| MonteCarlo.PiLoopBoundAsWritten | ent.hpp:261 | the loop bound `data.size() - 5` is a 64-bit word, and it is size - 5 exactly when no wrap occurs |
| MonteCarlo.PiEstimateAsWrittenNaN | ent.hpp:273 | as written, 5 bytes give 0 groups and the estimate 0/0, a NaN |
| MonteCarlo.PiEstimateAsWrittenAgrees | ent.hpp:273 | from 6 bytes on, the source's quotient is the model's estimate |
| MonteCarlo.PiEstimateAsWritten | ent.hpp:273 | as written, from 5 bytes on, the estimate is NaN exactly for 5 bytes and otherwise a finite value in [0, 4] |
| Serial.Predecessors | ent.hpp:284 | the first members of the pairs number `size - 1`, or 0 for the empty buffer |
| Serial.Successors | ent.hpp:285 | the second members of the pairs are as many as the pairs |
| Serial.AddPair | ent.hpp:286-291 | one pair adds at most 255 to sumX and sumY and at most 255^2 to sumXY, sumX2 and sumY2, and never decreases a sum |
| Serial.PairSums | ent.hpp:283-292 | fewer than 2 bytes leave all sums 0; sumX plus the last byte equals sumY plus the first byte, and likewise for the squares |
| Serial.PairSumsClosedForm | ent.hpp:283-292 | the five running sums equal sum X, sum Y, sum X*Y, sum X^2 and sum Y^2 over predecessors X and successors Y |
| Serial.PairSumsBounds | ent.hpp:283-292 | sumX and sumY are at most 255 n, and sumXY, sumX2 and sumY2 at most 255^2 n, for n pairs |
| Serial.SpreadZeroIff | ent.hpp:295 | `n sum t^2 - (sum t)^2` is at least 0, and it is 0 exactly when all bytes are equal |
| Serial.FactorsAreSpreads | ent.hpp:294-295 | the factors `n sumX2 - sumX^2` and `n sumY2 - sumY^2` are the spreads of the predecessors and of the successors |
| Serial.Assemble | ent.hpp:295 | the coefficient is undefined exactly when a factor under the square root is 0, and otherwise keeps the given numerator |
| Serial.CorrelationOf | ent.hpp:294-295 | a defined coefficient has both factors nonzero, and fewer than 3 bytes give an undefined coefficient |
| Serial.CorrelationFactorsPositive | ent.hpp:295 | whenever the coefficient is defined, both factors under the square root are positive |
| Serial.CorrelationUndefinedIff | ent.hpp:295 | the coefficient is undefined exactly when all predecessors are equal or all successors are equal |
| Serial.ConstantInputUndefined | ent.hpp:73-76 | a buffer of equal bytes has an undefined coefficient |
| Serial.UndefinedNumeratorZero | ent.hpp:295 | when the coefficient is undefined the numerator is 0 as well, so the source computes 0/0 |
| Serial.CorrelationAsWrittenAgrees | ent.hpp:295 | as long as sumX^2, sumY^2 and sumX*sumY fit in 64 bits, the source's factors are the exact ones |
| Serial.CorrelationAsWritten | ent.hpp:295 | with the three products of sums wrapped to 64 bits, a defined coefficient still has both factors nonzero |
| Serial.SerialCorrelationWrapsOnLongConstantInput | ent.hpp:295 | 16843011 bytes of 0xFF have an undefined exact coefficient, but the wrapped `sumX * sumX` leaves the factor 2^64 and a defined coefficient |
| Engine.Ent.constructor | ent.hpp:309-319 | a new engine holds the given bytes, both modes off and every result 0 |
| Engine.Ent.FoldCaseInPlace | ent.hpp:322-328 | the buffer afterwards is the case fold of the buffer before |
| Engine.Ent.TabulateBytes | ent.hpp:227-231 | entry b of the byte table is the number of positions holding b |
| Engine.Ent.TabulateBits | ent.hpp:203-210 | entry v of the bit table is the number of bits equal to v in the bit stream |
| Engine.Ent.CountBits | ent.hpp:206-209 | the inner loop adds each byte's 8 bits to the bit table |
| Engine.Ent.ChiSquareSum | ent.hpp:212-216 | the loop's sum is the statistic of the table |
| Engine.Ent.CalculateChiSquare | ent.hpp:200-237 | the stored statistic is that of the buffer in the current mode |
| Engine.Ent.SumBytes | ent.hpp:251 | the accumulated sum is the byte sum of the buffer |
| Engine.Ent.CalculateMean | ent.hpp:250-253 | the stored mean is the mean of the buffer, whatever the mode |
| Engine.Ent.CountPiHits | ent.hpp:258-271 | the loop visits floor(size / 6) groups and counts those whose point lies inside the circle |
| Engine.Ent.CalculatePi | ent.hpp:255-273 | the stored estimate is `4 hits / total` of the buffer |
| Engine.Ent.AccumulateSerialSums | ent.hpp:277-292 | the five running sums are those of the buffer's pairs |
| Engine.Ent.CalculateSerialCorrelation | ent.hpp:276-295 | the stored numerator and factors are those of the buffer, or Undefined when the denominator is zero |
| Engine.Ent.Calculate | ent.hpp:321-333 | the buffer is folded exactly when fold mode is on; the modes are kept; every stored statistic is that of the resulting buffer |

## Left out

- Entropy and the compression percentage (ent.hpp:155-197): they need `log2` and floating-point rounding. The tabulation loops they share with chi-square are modelled.
- The p-value (ent.hpp:151-153, 218-224, 239-245): it needs `sqrt` and `erfc`.
- The final square root and division of the correlation coefficient (ent.hpp:295): the model keeps the integer numerator and factors, and `Undefined` when the denominator is zero.
- All printing (ent.hpp:58-148), including the pi error percent against `M_PI`. The tabulation loops of the two table printers are the ones modelled by `Engine.Ent.TabulateBytes` and `Engine.Ent.TabulateBits`.
- Loading from a file or from standard input (ent.hpp:53-56, 298-319): I/O. The constructor takes the bytes as a parameter.
- The setters and getters (ent.hpp:351-391): the mode flags and results are plain fields. The print-table, terse and print-result flags only steer printing and are not fields of the model.
- Locale: the case fold is the one of the C locale, ASCII A to Z.
- Floating point: every double quotient is an exact rational, and a division by zero is a `None`, an `Undefined` or, in the as-written members, a `Float.Double` NaN or infinity. Rounding is not modelled.
- Engine.Ent.TabulateBytes: the source's table entries are 32-bit `int` and would overflow beyond 2^31 - 1 occurrences; the model counts in unbounded integers.
- Engine.Ent.TabulateBits: the source's bit table is `std::vector<int>` (ent.hpp:203, 208), incremented 8 times per byte, so an entry exceeds 2^31 - 1 from 2^28 bytes on (for instance 256 MiB of 0x00); the model, and `Engine.Ent.CountBits` with it, counts in unbounded integers.
- Engine.Ent.CountPiHits: the source's `hits` and `total` are `unsigned long`; the model counts in unbounded integers. This is exact on platforms where `unsigned long` is 64 bits (LP64, as with `size_t`), for every buffer below 2^64 groups; where `unsigned long` is 32 bits, the source's counters wrap from 2^32 groups on, which the model does not capture.
- Engine.Ent.AccumulateSerialSums: the running sums are `unsigned long long`; the model does not wrap them. By `Serial.PairSumsBounds` they stay below 2^64 for fewer than 2^64 / 65025 pairs.
- Serial.CorrelationOf: the numerator and the factors are computed in doubles in the source; the model keeps them as exact integers. Only the 64-bit wrap of the three products of sums is modelled, in `Serial.CorrelationAsWritten`.
- MonteCarlo.PiEstimateAsWritten: defined only from 5 bytes on, since below that the source's loop reads outside the buffer.
- MonteCarlo.Coordinate: computes the big-endian value with integer arithmetic; `MonteCarlo.ShiftOrIsSum` proves it equal to the source's shifts and ors at the level of 64-bit words, and the step from that word to the integer (a value below 2^24, so no wrap) is not proved.

## Findings

| source | as written | input that shows it | evidently intended | confidence | as-written member | corrected member |
|---|---|---|---|---|---|---|
| ent.hpp:261 | the loop bound `data.size() - 5` is an unsigned `size_t` and wraps below 5 bytes, so the guard admits a first group and bytes 0 to 5 are read past the end of the buffer | a buffer of 3 bytes | visit a group only while `i + 5 < data.size()`, giving floor(size / 6) groups | not executed; high | MonteCarlo.PiLoopBoundUnderflows | Engine.Ent.CountPiHits |
| ent.hpp:273 | with no complete group, `4.0 * hits / total` is 0/0 and stores NaN | a buffer of 5 bytes | report the estimate as not computable | not executed; medium | MonteCarlo.PiEstimateAsWrittenNaN | MonteCarlo.PiEstimate |
| ent.hpp:235-236 | on the empty buffer the expected count is 0 in both modes (ent.hpp:202, 227), so the first term `diff * diff / expected` is 0/0 and the statistic is NaN | the empty buffer | report the statistic as undefined | not executed; medium | ChiSquare.EmptyChiSquareIsNaN | ChiSquare.ChiSquareOf |
| ent.hpp:252 | on the empty buffer, `sum / data.size()` is 0/0 and stores NaN | the empty buffer | report the mean as undefined | not executed; medium | Mean.EmptyMeanIsNaN | Mean.MeanOf |
| ent.hpp:295 | `sumX * sumX`, `sumY * sumY` and `sumX * sumY` multiply two `unsigned long long` values and wrap modulo 2^64 once sumX reaches 2^32 | 16843011 bytes of 0xFF: the exact factor is 0, the wrapped one 2^64 | the exact factor, so that equal bytes give an undefined coefficient | not executed; high for the wrap, double rounding of `n * sumX2` ignored | Serial.SerialCorrelationWrapsOnLongConstantInput | Serial.CorrelationUndefinedIff |
