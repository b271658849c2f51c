/**
 The memory-cost constructors of the Cadence runtime: pure functions that turn
 the logical size of a value (a string length, the magnitude words of an
 arbitrary-precision integer) into a MemoryUsage record of a kind and an
 amount, which the interpreter hands to a memory gauge before it allocates.

 A Go `int` is as wide as a machine word, which is 4 or 8 bytes on the hosts
 Go supports; sizes are never negative, so they are `nat` bounded by the
 largest `int` of the host, MaxInt(ws). The Go conversions to uint64 and the
 uint64 addition are written with their wrap-around, so that the exact
 amounts below are proved free of overflow rather than assumed.
 */
module Metering {
  import opened Words
  import Big

  /** The memory kinds produced here (the runtime's full enumeration has many more). */
  datatype MemoryKind = String | BigInt

  const TwoTo64: nat := 0x1_0000_0000_0000_0000

  /** The word sizes of Go hosts, in bytes: a big.Word, like an `int`, is 32 or 64 bits wide. */
  type GoWordSize = w: Big.WordSize | w == 4 || w == 8 witness 8

  /** Largest value of a Go `int` on a host whose words are `ws` bytes wide. */
  function MaxInt(ws: GoWordSize): nat
  {
    if ws == 4 then 0x7FFF_FFFF else 0x7FFF_FFFF_FFFF_FFFF
  }

  type Uint64 = x: int | 0 <= x < 0x1_0000_0000_0000_0000

  /** One accounting event: what is measured, and how many memory units. */
  datatype MemoryUsage = MemoryUsage(kind: MemoryKind, amount: Uint64)

  /** Go's conversion uint64(x) of an int: reduction modulo 2^64. */
  function ToUint64(x: int): Uint64
  {
    x % TwoTo64
  }

  /** Go's uint64 addition, which wraps modulo 2^64. */
  function AddUint64(x: Uint64, y: Uint64): Uint64
  {
    (x + y) % TwoTo64
  }

  /** The cost of a string of `length` bytes; the extra unit makes an empty string cost something. */
  function NewStringMemoryUsage(length: nat, ws: GoWordSize): (u: MemoryUsage)
    requires length <= MaxInt(ws)
    ensures u.kind == String
    ensures u.amount == length + 1
  {
    MemoryUsage(String, AddUint64(ToUint64(length), 1))
  }

  /** The cost of a big integer occupying `bytes` bytes. */
  function NewBigIntMemoryUsage(bytes: nat, ws: GoWordSize): (u: MemoryUsage)
    requires bytes <= MaxInt(ws)
    ensures u.kind == BigInt
    ensures u.amount == bytes
  {
    MemoryUsage(BigInt, ToUint64(bytes))
  }

  function Max(a: int, b: int): (r: int)
    ensures r == a || r == b
    ensures r >= a && r >= b
  {
    if a > b then a else b
  }

  /** The number of bytes held by the magnitude words of `v`: a whole number of words. */
  function BigIntByteLength(v: Big.Int, ws: Big.WordSize): (n: nat)
    ensures n % ws == 0
    ensures n == 0 <==> |v.words| == 0
  {
    MultipleOfWordSize(|v.words|, ws);
    |v.words| * ws
  }

  /**
   The byte length is the magnitude's size rounded up to whole words: the
   magnitude fits in that many bytes and, when nonzero, does not fit in one
   word fewer.
   */
  lemma ByteLengthFitsMagnitude(v: Big.Int, ws: Big.WordSize)
    requires Big.Valid(v, ws)
    ensures Big.Abs(v, ws) < Pow(2, 8 * BigIntByteLength(v, ws))
    ensures BigIntByteLength(v, ws) > 0 ==> Big.Abs(v, ws) >= Pow(2, 8 * (BigIntByteLength(v, ws) - ws))
  {
    var k := |v.words|;
    PowOfPow(2, 8 * ws, k);
    assert 8 * ws * k == 8 * (k * ws);
    if k > 0 {
      PowOfPow(2, 8 * ws, k - 1);
      assert 8 * ws * (k - 1) == 8 * (k * ws - ws);
    }
    Big.AbsWithinWords(v, ws);
  }

  lemma MultipleOfWordSize(k: nat, ws: Big.WordSize)
    ensures (k * ws) % ws == 0
    ensures k * ws == 0 <==> k == 0
  {
    if ws > 1 {
      DivModOfLowWord(0, k, ws);
    }
  }

  /** Go `int` arithmetic in the addition cost stays in range. */
  predicate PlusFits(a: Big.Int, b: Big.Int, ws: GoWordSize)
  {
    Max(BigIntByteLength(a, ws), BigIntByteLength(b, ws)) + ws <= MaxInt(ws)
  }

  /** Go `int` arithmetic in the multiplication cost stays in range. */
  predicate MulFits(a: Big.Int, b: Big.Int, ws: GoWordSize)
  {
    BigIntByteLength(a, ws) + BigIntByteLength(b, ws) <= MaxInt(ws)
  }

  /** The worst-case cost of a + b, charged before the addition: one word more than the longer operand. */
  function NewPlusBigIntMemoryUsage(a: Big.Int, b: Big.Int, ws: GoWordSize): (u: MemoryUsage)
    requires PlusFits(a, b, ws)
    ensures u.kind == BigInt
    ensures u.amount == (Max(|a.words|, |b.words|) + 1) * ws
  {
    NewBigIntMemoryUsage(
      Max(
        BigIntByteLength(a, ws),
        BigIntByteLength(b, ws)
      ) + ws,
      ws
    )
  }

  /** The worst-case cost of a * b, charged before the multiplication: the two operands' words together. */
  function NewMulBigIntMemoryUsage(a: Big.Int, b: Big.Int, ws: GoWordSize): (u: MemoryUsage)
    requires MulFits(a, b, ws)
    ensures u.kind == BigInt
    ensures u.amount == (|a.words| + |b.words|) * ws
  {
    NewBigIntMemoryUsage(
      BigIntByteLength(a, ws) +
        BigIntByteLength(b, ws),
      ws
    )
  }
}
