/** The bytes of the analysed buffer, the bit extraction used in bit-stream
    mode, and the ASCII case fold that may rewrite the buffer before analysis. */
module Bytes {
  /** An `unsigned char` of the buffer. */
  type Byte = x: int | 0 <= x < 256

  /** 2^64, one past the largest `unsigned long long` and `size_t`. */
  const Word64: nat := 0x1_0000_0000_0000_0000

  /** Multiplication by a natural number is monotone. */
  lemma MulMonotone(a: nat, b: nat, c: nat)
    requires a <= b
    ensures a * c <= b * c
  {
  }

  /** An unbounded integer reduced to a 64-bit unsigned machine word, as
      unsigned C++ arithmetic wraps. */
  function Wrap64(x: int): (r: nat)
    ensures r < Word64
    ensures 0 <= x < Word64 ==> r == x
  {
    x % Word64
  }

  /** 2^k: shifting an unsigned value right by k divides it by this. */
  function Pow2(k: nat): (r: nat)
    ensures r >= 1
  {
    if k == 0 then 1 else 2 * Pow2(k - 1)
  }

  /** Bit k of b, the value of `(b >> k) & 1`. */
  function Bit(b: Byte, k: nat): (r: nat)
    ensures r < 2
  {
    b / Pow2(k) % 2
  }

  /** Bit agrees with the shift-and-mask of the source on an 8-bit value. */
  lemma BitIsShiftAndMask(b: Byte, k: nat)
    requires k < 8
    ensures Bit(b, k) == ((b as bv8 >> k) & 1) as int
  {
    if k == 0 {
    } else if k == 1 {
    } else if k == 2 {
    } else if k == 3 {
    } else if k == 4 {
    } else if k == 5 {
    } else if k == 6 {
    } else {
      assert Pow2(7) == 128;
    }
  }

  /** The C++ expression `(b >> k) & 1` on an unsigned char. */
  function ShiftAndMask(b: Byte, k: nat): (r: int)
    requires k < 8
    ensures r == Bit(b, k)
  {
    BitIsShiftAndMask(b, k);
    ((b as bv8 >> k) & 1) as int
  }

  /** The eight bits of one byte in the order bit mode visits them,
      least significant first. */
  function BitsOf(b: Byte): (r: seq<int>)
    ensures |r| == 8
    ensures forall k :: 0 <= k < 8 ==> r[k] == Bit(b, k)
  {
    [Bit(b, 0), Bit(b, 1), Bit(b, 2), Bit(b, 3), Bit(b, 4), Bit(b, 5), Bit(b, 6), Bit(b, 7)]
  }

  /** The symbol stream of bit mode: eight symbols per byte, bytes in order,
      each byte's bits from bit 0 to bit 7. */
  function BitStream(s: seq<Byte>): (r: seq<int>)
    ensures |r| == 8 * |s|
    ensures forall j :: 0 <= j < |r| ==> r[j] == Bit(s[j / 8], j % 8)
  {
    if s == [] then []
    else
      var prefix, last := BitStream(s[..|s| - 1]), BitsOf(s[|s| - 1]);
      assert forall j :: 8 * (|s| - 1) <= j < 8 * |s| ==> j / 8 == |s| - 1 && j % 8 == j - 8 * (|s| - 1);
      prefix + last
  }

  /** An ASCII upper-case letter, 'A' to 'Z': the bytes for which both
      `isalpha` and `isupper` hold in the C locale. */
  predicate IsUpper(b: Byte)
  {
    'A' as int <= b <= 'Z' as int
  }

  /** `tolower` in the C locale, applied to an upper-case letter only. */
  function FoldByte(b: Byte): (r: Byte)
    ensures !IsUpper(r)
    ensures r != b <==> IsUpper(b)
    ensures IsUpper(b) ==> r - 32 == b
  {
    if IsUpper(b) then b + ('a' as int - 'A' as int) else b
  }

  /** The case-fold pre-pass over a whole buffer. */
  function FoldCase(s: seq<Byte>): (r: seq<Byte>)
    ensures |r| == |s|
    ensures forall i :: 0 <= i < |s| && IsUpper(s[i]) ==> r[i] == s[i] + 32
    ensures forall i :: 0 <= i < |s| && !IsUpper(s[i]) ==> r[i] == s[i]
    ensures forall i :: 0 <= i < |r| ==> !IsUpper(r[i])
  {
    seq(|s|, i requires 0 <= i < |s| => FoldByte(s[i]))
  }

  /** Folding an already folded buffer changes nothing. */
  lemma FoldCaseIdempotent(s: seq<Byte>)
    ensures FoldCase(FoldCase(s)) == FoldCase(s)
  {
  }
}
