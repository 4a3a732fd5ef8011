/** Frequency tabulation, shared by both units of analysis: in byte mode the
    symbols are the bytes themselves (alphabet 256), in bit mode they are the
    bit stream (alphabet 2). */
module Frequency {
  import opened Bytes

  /** The number of positions of s that hold v. */
  function CountOf(s: seq<int>, v: int): (c: nat)
    ensures c <= |s|
    ensures c == 0 <==> forall i :: 0 <= i < |s| ==> s[i] != v
  {
    if s == [] then 0
    else
      var init := s[..|s| - 1];
      assert forall i :: 0 <= i < |init| ==> init[i] == s[i];
      CountOf(init, v) + (if s[|s| - 1] == v then 1 else 0)
  }

  /** The frequency table: entry v is the count of symbol v, for v below k. */
  function Counts(s: seq<int>, k: nat): (r: seq<nat>)
    ensures |r| == k
    ensures forall v :: 0 <= v < k ==> r[v] <= |s|
    ensures forall i :: 0 <= i < |s| && 0 <= s[i] < k ==> r[s[i]] > 0
  {
    seq(k, v requires 0 <= v < k => CountOf(s, v))
  }

  /** The sum of a table's entries. */
  function SumSeq(c: seq<nat>): nat
  {
    if c == [] then 0 else SumSeq(c[..|c| - 1]) + c[|c| - 1]
  }

  /** The symbols of the unit of analysis. */
  function Symbols(s: seq<Byte>, bitMode: bool): seq<int>
  {
    if bitMode then BitStream(s) else s
  }

  /** The alphabet size: 2 in bit mode, 256 in byte mode. */
  function Alphabet(bitMode: bool): nat
  {
    if bitMode then 2 else 256
  }

  /** Appending one symbol adds one to its own count and nothing to any other. */
  lemma CountOfSnoc(s: seq<int>, x: int, v: int)
    ensures CountOf(s + [x], v) == CountOf(s, v) + (if x == v then 1 else 0)
  {
    assert (s + [x])[..|s|] == s;
  }

  /** Counts add up over concatenation. */
  lemma {:induction false} CountOfAppend(s: seq<int>, t: seq<int>, v: int)
    ensures CountOf(s + t, v) == CountOf(s, v) + CountOf(t, v)
    decreases |t|
  {
    if t == [] {
      assert s + t == s;
    } else {
      var t', x := t[..|t| - 1], t[|t| - 1];
      assert t == t' + [x];
      assert s + t == (s + t') + [x];
      CountOfSnoc(s + t', x, v);
      CountOfSnoc(t', x, v);
      CountOfAppend(s, t', v);
    }
  }

  /** Incrementing one entry of a table adds one to its sum. */
  lemma {:induction false} SumSeqIncrement(c: seq<nat>, x: nat)
    requires x < |c|
    ensures SumSeq(c[x := c[x] + 1]) == SumSeq(c) + 1
    decreases |c|
  {
    var d := c[x := c[x] + 1];
    var n := |c| - 1;
    assert d[..n] == if x < n then c[..n][x := c[x] + 1] else c[..n];
    if x < n {
      SumSeqIncrement(c[..n], x);
    }
  }

  /** When every symbol is below k, the k counts sum exactly to the number of
      symbols: |s| in byte mode, 8 |s| in bit mode. */
  lemma {:induction false} CountsSumToLength(s: seq<int>, k: nat)
    requires forall i :: 0 <= i < |s| ==> 0 <= s[i] < k
    ensures SumSeq(Counts(s, k)) == |s|
    decreases |s|
  {
    if s == [] {
      var c := Counts(s, k);
      assert forall v :: 0 <= v < k ==> c[v] == 0;
      ZeroTableSum(c);
    } else {
      var s', x := s[..|s| - 1], s[|s| - 1];
      assert s == s' + [x];
      CountsSumToLength(s', k);
      forall v | 0 <= v < k {
        CountOfSnoc(s', x, v);
      }
      var c := Counts(s', k);
      assert Counts(s, k) == c[x := c[x] + 1];
      SumSeqIncrement(c, x);
    }
  }

  /** A table of zeros sums to zero. */
  lemma {:induction false} ZeroTableSum(c: seq<nat>)
    requires forall v :: 0 <= v < |c| ==> c[v] == 0
    ensures SumSeq(c) == 0
    decreases |c|
  {
    if c != [] {
      ZeroTableSum(c[..|c| - 1]);
    }
  }

  /** A table of ones sums to its length. */
  lemma {:induction false} OnesTableSum(c: seq<nat>)
    requires forall v :: 0 <= v < |c| ==> c[v] == 1
    ensures SumSeq(c) == |c|
    decreases |c|
  {
    if c != [] {
      OnesTableSum(c[..|c| - 1]);
    }
  }

  /** The frequency table of either mode sums to the number of symbols:
      |s| bytes in byte mode, 8 |s| bits in bit mode. */
  lemma TableSumsToSymbolTotal(s: seq<Byte>, bitMode: bool)
    ensures |Symbols(s, bitMode)| == if bitMode then 8 * |s| else |s|
    ensures SumSeq(Counts(Symbols(s, bitMode), Alphabet(bitMode))) == |Symbols(s, bitMode)|
  {
    CountsSumToLength(Symbols(s, bitMode), Alphabet(bitMode));
  }

  /** In bit mode the count of symbol 1 is the number of set bits of the
      buffer, bit by bit, and the two counts together are 8 |s|. */
  lemma {:induction false} OnesAreSetBits(s: seq<Byte>)
    ensures CountOf(BitStream(s), 1) == SetBits(s)
    ensures CountOf(BitStream(s), 0) + CountOf(BitStream(s), 1) == 8 * |s|
    decreases |s|
  {
    if s != [] {
      var s', x := s[..|s| - 1], s[|s| - 1];
      OnesAreSetBits(s');
      assert BitStream(s) == BitStream(s') + BitsOf(x);
      CountOfAppend(BitStream(s'), BitsOf(x), 1);
      CountOfAppend(BitStream(s'), BitsOf(x), 0);
      BitsOfCounts(x);
    }
  }

  /** The number of set bits among bits 0..k-1 of b. */
  function BitSum(b: Byte, k: nat): nat
  {
    if k == 0 then 0 else BitSum(b, k - 1) + Bit(b, k - 1)
  }

  /** The number of set bits of one byte. */
  function PopCount(b: Byte): nat
  {
    BitSum(b, 8)
  }

  /** The number of set bits of a buffer. */
  function SetBits(s: seq<Byte>): nat
  {
    if s == [] then 0 else SetBits(s[..|s| - 1]) + PopCount(s[|s| - 1])
  }

  /** The first k bits of a byte hold BitSum(b, k) ones and the rest zeros. */
  lemma {:induction false} BitsOfPrefixCounts(b: Byte, k: nat)
    requires k <= 8
    ensures CountOf(BitsOf(b)[..k], 1) == BitSum(b, k)
    ensures CountOf(BitsOf(b)[..k], 0) == k - BitSum(b, k)
    ensures BitSum(b, k) <= k
  {
    if k > 0 {
      var r := BitsOf(b);
      BitsOfPrefixCounts(b, k - 1);
      assert r[..k] == r[..k - 1] + [Bit(b, k - 1)];
      CountOfSnoc(r[..k - 1], Bit(b, k - 1), 1);
      CountOfSnoc(r[..k - 1], Bit(b, k - 1), 0);
    }
  }

  /** One byte contributes its set bits as ones and the rest as zeros. */
  lemma BitsOfCounts(b: Byte)
    ensures CountOf(BitsOf(b), 1) == PopCount(b)
    ensures CountOf(BitsOf(b), 0) == 8 - PopCount(b)
  {
    BitsOfPrefixCounts(b, 8);
    assert BitsOf(b)[..8] == BitsOf(b);
  }

  /** The ascending buffer 0, 1, ..., n-1. */
  function Ascending(n: nat): (r: seq<int>)
    ensures |r| == n
    ensures forall i :: 0 <= i < n ==> r[i] == i
  {
    seq(n, i => i)
  }

  /** The ascending buffer holds each value below its length exactly once. */
  lemma {:induction false} AscendingCountsOne(n: nat, v: int)
    requires 0 <= v < n
    ensures CountOf(Ascending(n), v) == 1
  {
    var m := n - 1;
    assert Ascending(n) == Ascending(m) + [m];
    CountOfSnoc(Ascending(m), m, v);
    if v < m {
      AscendingCountsOne(m, v);
    } else {
      assert CountOf(Ascending(m), v) == 0;
    }
  }
}
