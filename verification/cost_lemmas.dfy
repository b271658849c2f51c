/**
 Properties of the memory-cost constructors: the string overhead, symmetry
 and bounds of the big-integer costs, the worked examples of the cost model,
 and the guarantee the pre-charging policy relies on: the amount charged
 before an addition or a multiplication is never less than the byte length
 of the result it produces, and that worst case is actually reached.
 */
module CostLemmas {
  import opened Words
  import Big
  import opened Metering

  /** Even an empty string costs one unit; the amount grows strictly with the length. */
  lemma StringUsageOrdered(l1: nat, l2: nat, ws: GoWordSize)
    requires l1 <= MaxInt(ws) && l2 <= MaxInt(ws)
    ensures NewStringMemoryUsage(l1, ws).amount >= 1
    ensures l1 == 0 ==> NewStringMemoryUsage(l1, ws).amount == 1
    ensures l1 < l2 <==> NewStringMemoryUsage(l1, ws).amount < NewStringMemoryUsage(l2, ws).amount
  {
  }

  lemma StringUsageExamples()
    ensures NewStringMemoryUsage(0, Big.HostWordSize) == MemoryUsage(String, 1)
    ensures NewStringMemoryUsage(255, Big.HostWordSize) == MemoryUsage(String, 256)
  {
  }

  /** A negative Go `int` would wrap in the uint64 conversion; -1 would cost nothing. */
  lemma NegativeLengthWraps()
    ensures AddUint64(ToUint64(-1), 1) == 0
  {
  }

  lemma MaxSymmetric(a: int, b: int)
    ensures Max(a, b) == Max(b, a)
  {
  }

  /** Byte length orders big integers exactly as their word counts do. */
  lemma ByteLengthMonotone(a: Big.Int, b: Big.Int, ws: Big.WordSize)
    ensures |a.words| <= |b.words| <==> BigIntByteLength(a, ws) <= BigIntByteLength(b, ws)
  {
    var n, m := |a.words|, |b.words|;
    if n <= m {
      assert n * ws <= m * ws;
    } else {
      MulMonotone(ws, m + 1, n);
    }
  }

  lemma PlusUsageSymmetric(a: Big.Int, b: Big.Int, ws: GoWordSize)
    requires PlusFits(a, b, ws)
    ensures PlusFits(b, a, ws)
    ensures NewPlusBigIntMemoryUsage(a, b, ws) == NewPlusBigIntMemoryUsage(b, a, ws)
  {
  }

  /** The addition charge is a word more than the longer operand, so it strictly exceeds both. */
  lemma PlusUsageExceedsOperands(a: Big.Int, b: Big.Int, ws: GoWordSize)
    requires PlusFits(a, b, ws)
    ensures NewPlusBigIntMemoryUsage(a, b, ws).amount > BigIntByteLength(a, ws)
    ensures NewPlusBigIntMemoryUsage(a, b, ws).amount > BigIntByteLength(b, ws)
    ensures NewPlusBigIntMemoryUsage(a, b, ws).amount == BigIntByteLength(a, ws) + ws
         || NewPlusBigIntMemoryUsage(a, b, ws).amount == BigIntByteLength(b, ws) + ws
  {
  }

  lemma MulUsageSymmetric(a: Big.Int, b: Big.Int, ws: GoWordSize)
    requires MulFits(a, b, ws)
    ensures MulFits(b, a, ws)
    ensures NewMulBigIntMemoryUsage(a, b, ws) == NewMulBigIntMemoryUsage(b, a, ws)
  {
  }

  /** The multiplication charge covers each operand, and is the two byte lengths together. */
  lemma MulUsageCoversOperands(a: Big.Int, b: Big.Int, ws: GoWordSize)
    requires MulFits(a, b, ws)
    ensures NewMulBigIntMemoryUsage(a, b, ws).amount >= BigIntByteLength(a, ws)
    ensures NewMulBigIntMemoryUsage(a, b, ws).amount >= BigIntByteLength(b, ws)
    ensures NewMulBigIntMemoryUsage(a, b, ws).amount - BigIntByteLength(a, ws) == BigIntByteLength(b, ws)
  {
  }

  /** Operands of 8 and 16 bytes on a 64-bit host: both operations are charged 24 bytes. */
  lemma BigIntUsageExamples()
    ensures var a, b := Big.Int(false, [1]), Big.Int(false, [0, 1]);
      && BigIntByteLength(a, Big.HostWordSize) == 8
      && BigIntByteLength(b, Big.HostWordSize) == 16
      && NewPlusBigIntMemoryUsage(a, b, Big.HostWordSize) == MemoryUsage(BigInt, 24)
      && NewMulBigIntMemoryUsage(a, b, Big.HostWordSize) == MemoryUsage(BigInt, 24)
  {
  }

  /**
   The `int` range follows the word size: operands of 2^29 words fit the
   addition cost on a 64-bit host, while on a 32-bit host the byte count
   2^31 + 4 is beyond the largest `int`, where Go's arithmetic would wrap.
   */
  lemma IntRangeFollowsWordSize(a: Big.Int)
    requires |a.words| == 0x2000_0000
    ensures PlusFits(a, a, 8)
    ensures !PlusFits(a, a, 4)
  {
  }

  /**
   The byte length depends on the host: the same integer 1 is one word on
   both hosts, so it is charged 4 bytes on a 32-bit host and 8 on a 64-bit one.
   */
  lemma ByteLengthDependsOnWordSize()
    ensures var one := Big.Int(false, [1]);
      && Big.Valid(one, 4) && Big.Valid(one, 8)
      && Big.ToInt(one, 4) == 1 && Big.ToInt(one, 8) == 1
      && BigIntByteLength(one, 4) == 4
      && BigIntByteLength(one, 8) == 8
  {
  }

  /** The magnitude of a sum is at most the sum of the magnitudes. */
  lemma AbsSumBound(a: Big.Int, b: Big.Int, s: Big.Int, ws: Big.WordSize)
    requires Big.ToInt(s, ws) == Big.ToInt(a, ws) + Big.ToInt(b, ws)
    ensures Big.Abs(s, ws) <= Big.Abs(a, ws) + Big.Abs(b, ws)
  {
  }

  function IntAbs(v: int): nat
  {
    if v < 0 then -v else v
  }

  lemma IntAbsMul(u: int, v: int)
    ensures IntAbs(u * v) == IntAbs(u) * IntAbs(v)
  {
    if u < 0 && v < 0 {
      assert u * v == (-u) * (-v);
    } else if u < 0 {
      assert -(u * v) == (-u) * v;
    } else if v < 0 {
      assert -(u * v) == u * (-v);
    }
  }

  /** The magnitude of a product is the product of the magnitudes. */
  lemma AbsProduct(a: Big.Int, b: Big.Int, s: Big.Int, ws: Big.WordSize)
    requires Big.ToInt(s, ws) == Big.ToInt(a, ws) * Big.ToInt(b, ws)
    ensures Big.Abs(s, ws) == Big.Abs(a, ws) * Big.Abs(b, ws)
  {
    IntAbsMul(Big.ToInt(a, ws), Big.ToInt(b, ws));
    assert Big.Abs(s, ws) == IntAbs(Big.ToInt(s, ws));
    assert Big.Abs(a, ws) == IntAbs(Big.ToInt(a, ws));
    assert Big.Abs(b, ws) == IntAbs(Big.ToInt(b, ws));
  }

  lemma ScaleByWordSize(j: nat, k: nat, ws: Big.WordSize)
    requires j <= k
    ensures j * ws <= k * ws
  {
  }

  /** Any big integer holding the sum of an n-word and an m-word integer (any signs) has at most max(n, m) + 1 words. */
  lemma SumWords(a: Big.Int, b: Big.Int, s: Big.Int, ws: Big.WordSize)
    requires Big.Valid(a, ws) && Big.Valid(b, ws) && Big.Valid(s, ws)
    requires Big.ToInt(s, ws) == Big.ToInt(a, ws) + Big.ToInt(b, ws)
    ensures |s.words| <= Max(|a.words|, |b.words|) + 1
  {
    var n, m := |a.words|, |b.words|;
    var k := Max(n, m);
    Big.AbsWithinWords(a, ws);
    Big.AbsWithinWords(b, ws);
    SumFits(Big.Abs(a, ws), Big.Abs(b, ws), Big.Base(ws), n, m, k);
    AbsSumBound(a, b, s, ws);
    Big.WordsFit(s, ws, k + 1);
  }

  /** Any big integer holding the product of an n-word and an m-word integer has at most n + m words. */
  lemma ProductWords(a: Big.Int, b: Big.Int, s: Big.Int, ws: Big.WordSize)
    requires Big.Valid(a, ws) && Big.Valid(b, ws) && Big.Valid(s, ws)
    requires Big.ToInt(s, ws) == Big.ToInt(a, ws) * Big.ToInt(b, ws)
    ensures |s.words| <= |a.words| + |b.words|
  {
    var n, m := |a.words|, |b.words|;
    Big.AbsWithinWords(a, ws);
    Big.AbsWithinWords(b, ws);
    ProductFits(Big.Abs(a, ws), Big.Abs(b, ws), Big.Base(ws), n, m);
    AbsProduct(a, b, s, ws);
    Big.WordsFit(s, ws, n + m);
  }

  /** Pre-charging an addition is conservative: the sum never needs more bytes than were charged. */
  lemma PlusChargeSufficient(a: Big.Int, b: Big.Int, s: Big.Int, ws: GoWordSize)
    requires Big.Valid(a, ws) && Big.Valid(b, ws) && Big.Valid(s, ws)
    requires Big.ToInt(s, ws) == Big.ToInt(a, ws) + Big.ToInt(b, ws)
    ensures PlusFits(a, b, ws) ==> BigIntByteLength(s, ws) <= NewPlusBigIntMemoryUsage(a, b, ws).amount
  {
    SumWords(a, b, s, ws);
    ScaleByWordSize(|s.words|, Max(|a.words|, |b.words|) + 1, ws);
  }

  /** Pre-charging a multiplication is conservative: the product never needs more bytes than were charged. */
  lemma MulChargeSufficient(a: Big.Int, b: Big.Int, s: Big.Int, ws: GoWordSize)
    requires Big.Valid(a, ws) && Big.Valid(b, ws) && Big.Valid(s, ws)
    requires Big.ToInt(s, ws) == Big.ToInt(a, ws) * Big.ToInt(b, ws)
    ensures MulFits(a, b, ws) ==> BigIntByteLength(s, ws) <= NewMulBigIntMemoryUsage(a, b, ws).amount
  {
    ProductWords(a, b, s, ws);
    ScaleByWordSize(|s.words|, |a.words| + |b.words|, ws);
  }

  /**
   The addition charge is attained: adding an all-ones integer to itself
   carries into a new word, so the sum fills every charged byte.
   */
  lemma PlusChargeAttained(a: Big.Int, s: Big.Int, ws: GoWordSize)
    requires Big.AllOnes(a, ws) && |a.words| >= 1
    requires Big.Valid(s, ws)
    requires Big.ToInt(s, ws) == Big.ToInt(a, ws) + Big.ToInt(a, ws)
    ensures |s.words| == |a.words| + 1
    ensures PlusFits(a, a, ws) ==> BigIntByteLength(s, ws) == NewPlusBigIntMemoryUsage(a, a, ws).amount
  {
    var n := |a.words|;
    PowAtLeastTwo(Big.Base(ws), n);
    assert Big.Abs(s, ws) == 2 * Big.Abs(a, ws);
    Big.WordsNeeded(s, ws, n);
    SumWords(a, a, s, ws);
  }

  lemma ExpandProduct(p: int, q: int)
    ensures (p - 1) * (q - 1) == p * q - p - q + 1
  {
  }

  /** With p, q <= r and p * q = base * r for base >= 3, (p - 1)(q - 1) still reaches r. */
  lemma ShrunkProductBound(base: nat, p: nat, q: nat, r: nat)
    requires base >= 3
    requires 1 <= p <= r && 1 <= q <= r
    requires p * q == base * r
    ensures (p - 1) * (q - 1) >= r
  {
    ExpandProduct(p, q);
    assert base * r >= 3 * r;
  }

  /** (B^n - 1)(B^m - 1) reaches B^(n+m-1) once the base is at least 3. */
  lemma FullProductLowerBound(base: nat, n: nat, m: nat, x: int, y: int)
    requires base >= 3
    requires n >= 1 && m >= 1
    requires x == Pow(base, n) - 1 && y == Pow(base, m) - 1
    ensures x * y >= Pow(base, n + m - 1)
  {
    var p, q, r := Pow(base, n), Pow(base, m), Pow(base, n + m - 1);
    PowPositive(base, n);
    PowPositive(base, m);
    PowAdd(base, n, m);
    assert Pow(base, n + m) == base * r;
    PowMonotone(base, n, n + m - 1);
    PowMonotone(base, m, n + m - 1);
    ShrunkProductBound(base, p, q, r);
  }

  lemma BaseAtLeast256(ws: Big.WordSize)
    ensures Big.Base(ws) >= 256
  {
    PowMonotone(2, 8, 8 * ws);
  }

  /** Any big integer holding the product of two all-ones integers fills both operands' words. */
  lemma AllOnesProductWords(a: Big.Int, b: Big.Int, s: Big.Int, ws: Big.WordSize)
    requires Big.AllOnes(a, ws) && Big.AllOnes(b, ws)
    requires |a.words| >= 1 && |b.words| >= 1
    requires Big.Valid(s, ws)
    requires Big.ToInt(s, ws) == Big.ToInt(a, ws) * Big.ToInt(b, ws)
    ensures |s.words| == |a.words| + |b.words|
  {
    var n, m := |a.words|, |b.words|;
    var x, y := Big.Abs(a, ws), Big.Abs(b, ws);
    BaseAtLeast256(ws);
    FullProductLowerBound(Big.Base(ws), n, m, x, y);
    AbsProduct(a, b, s, ws);
    Big.WordsNeeded(s, ws, n + m - 1);
    ProductWords(a, b, s, ws);
  }

  /**
   The multiplication charge is attained: the product of two all-ones
   integers fills every charged byte.
   */
  lemma MulChargeAttained(a: Big.Int, b: Big.Int, s: Big.Int, ws: GoWordSize)
    requires Big.AllOnes(a, ws) && Big.AllOnes(b, ws)
    requires |a.words| >= 1 && |b.words| >= 1
    requires Big.Valid(s, ws)
    requires Big.ToInt(s, ws) == Big.ToInt(a, ws) * Big.ToInt(b, ws)
    ensures MulFits(a, b, ws) ==> BigIntByteLength(s, ws) == NewMulBigIntMemoryUsage(a, b, ws).amount
  {
    AllOnesProductWords(a, b, s, ws);
  }
}
