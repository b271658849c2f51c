/**
 An abstract arbitrary-precision integer in the shape of Go's big.Int: a sign
 and the normalized little-endian vector of machine words that big.Int.Bits()
 exposes. The machine word size, in bytes, is a parameter: every result here
 holds for any positive word size, not only the 8 bytes of a 64-bit host.
 */
module Big {
  import opened Words

  /** Bytes per machine word (the size of a big.Word). */
  type WordSize = w: nat | w > 0 witness 8

  /** The word size of a 64-bit host. */
  const HostWordSize: WordSize := 8

  /** The radix of the magnitude vector: one word holds 8*ws bits. */
  function Base(ws: WordSize): (b: nat)
    ensures b >= 2
  {
    PowAtLeastTwo(2, 8 * ws);
    Pow(2, 8 * ws)
  }

  /** Sign and magnitude words, least significant first. */
  datatype Int = Int(neg: bool, words: seq<nat>)

  /** The invariant big.Int keeps: normalized magnitude, and zero is never negative. */
  predicate Valid(x: Int, ws: WordSize)
  {
    Normalized(x.words, Base(ws)) && (|x.words| == 0 ==> !x.neg)
  }

  /** The absolute value. */
  function Abs(x: Int, ws: WordSize): nat
  {
    Value(x.words, Base(ws))
  }

  /** The mathematical integer denoted. */
  function ToInt(x: Int, ws: WordSize): int
  {
    if x.neg then -(Abs(x, ws) as int) else Abs(x, ws)
  }

  /** The canonical big integer denoting `v`. */
  function FromInt(v: int, ws: WordSize): (r: Int)
    ensures Valid(r, ws)
    ensures ToInt(r, ws) == v
    ensures Abs(r, ws) == if v < 0 then -v else v
  {
    Int(v < 0, Digits(if v < 0 then -v else v, Base(ws)))
  }

  /** A nonempty normalized magnitude is nonzero. */
  lemma AbsPositive(x: Int, ws: WordSize)
    requires Valid(x, ws)
    requires |x.words| > 0
    ensures Abs(x, ws) > 0
  {
    ValueAtLeastTopPow(x.words, Base(ws));
    PowPositive(Base(ws), |x.words| - 1);
  }

  /** Every valid big integer is the canonical one for the integer it denotes. */
  lemma FromIntToInt(x: Int, ws: WordSize)
    requires Valid(x, ws)
    ensures FromInt(ToInt(x, ws), ws) == x
  {
    if |x.words| > 0 {
      AbsPositive(x, ws);
    }
    DigitsOfValue(x.words, Base(ws));
  }

  /** The magnitude of an n-word integer is below B^n, and at least B^(n-1) when n > 0. */
  lemma AbsWithinWords(x: Int, ws: WordSize)
    requires Valid(x, ws)
    ensures Abs(x, ws) < Pow(Base(ws), |x.words|)
    ensures |x.words| > 0 ==> Abs(x, ws) >= Pow(Base(ws), |x.words| - 1)
  {
    ValueBelowPow(x.words, Base(ws));
    if |x.words| > 0 {
      ValueAtLeastTopPow(x.words, Base(ws));
    }
  }

  /** The canonical representation of `v` uses at most k words when |v| < B^k. */
  lemma FromIntFits(v: int, ws: WordSize, k: nat)
    requires (if v < 0 then -v else v) < Pow(Base(ws), k)
    ensures |FromInt(v, ws).words| <= k
  {
    DigitsFit(if v < 0 then -v else v, Base(ws), k);
  }

  /** An integer whose magnitude is below B^k has at most k words. */
  lemma WordsFit(x: Int, ws: WordSize, k: nat)
    requires Valid(x, ws)
    requires Abs(x, ws) < Pow(Base(ws), k)
    ensures |x.words| <= k
  {
    FromIntToInt(x, ws);
    FromIntFits(ToInt(x, ws), ws, k);
  }

  /** An integer whose magnitude reaches B^k needs more than k words. */
  lemma WordsNeeded(x: Int, ws: WordSize, k: nat)
    requires Valid(x, ws)
    requires Abs(x, ws) >= Pow(Base(ws), k)
    ensures |x.words| > k
  {
    ValueNeedsWords(x.words, Base(ws), k);
  }

  /** A valid integer whose magnitude is the largest its word count can hold: every bit set. */
  predicate AllOnes(x: Int, ws: WordSize)
  {
    Valid(x, ws) && Abs(x, ws) + 1 == Pow(Base(ws), |x.words|)
  }

  /** For every n there is an n-word all-ones integer: the canonical B^n - 1. */
  lemma FullWords(n: nat, ws: WordSize)
    ensures Pow(Base(ws), n) >= 1
    ensures AllOnes(FromInt(Pow(Base(ws), n) - 1, ws), ws)
    ensures |FromInt(Pow(Base(ws), n) - 1, ws).words| == n
  {
    AllOnesDigits(Base(ws), n);
  }
}
