/**
 Arithmetic on little-endian vectors of machine words, the representation
 Go's math/big uses for the magnitude of an arbitrary-precision integer.
 A vector `s` over base `B` denotes s[0] + B*s[1] + B^2*s[2] + ...; it is
 normalized when every word is below `B` and the most significant word is
 nonzero (so zero is the empty vector).
 */
module Words {

  function Pow(b: nat, n: nat): nat
  {
    if n == 0 then 1 else b * Pow(b, n - 1)
  }

  /** The number denoted by a little-endian word vector. */
  function Value(s: seq<nat>, base: nat): nat
  {
    if |s| == 0 then 0 else s[0] + base * Value(s[1..], base)
  }

  predicate WordsBelow(s: seq<nat>, base: nat)
  {
    forall i :: 0 <= i < |s| ==> s[i] < base
  }

  predicate Normalized(s: seq<nat>, base: nat)
  {
    WordsBelow(s, base) && (|s| == 0 || s[|s| - 1] != 0)
  }

  /** The normalized word vector of `n`, least significant word first. */
  function Digits(n: nat, base: nat): (r: seq<nat>)
    requires base >= 2
    ensures Normalized(r, base)
    ensures Value(r, base) == n
    decreases n
  {
    if n == 0 then []
    else
      var rest := Digits(n / base, base);
      PrependLowWord(n, base, rest);
      [n % base] + rest
  }

  /** Putting n % B in front of the vector of n / B gives a normalized vector of n. */
  lemma PrependLowWord(n: nat, base: nat, rest: seq<nat>)
    requires base >= 2
    requires n > 0
    requires Normalized(rest, base)
    requires Value(rest, base) == n / base
    ensures Normalized([n % base] + rest, base)
    ensures Value([n % base] + rest, base) == n
  {
    var r := [n % base] + rest;
    assert r[1..] == rest;
    assert n == n % base + base * (n / base);
  }

  lemma {:induction false} PowPositive(b: nat, n: nat)
    requires b >= 1
    ensures Pow(b, n) >= 1
  {
    if n > 0 {
      PowPositive(b, n - 1);
    }
  }

  lemma {:induction false} PowMonotone(b: nat, n: nat, k: nat)
    requires b >= 1
    requires n <= k
    ensures Pow(b, n) <= Pow(b, k)
  {
    if n < k {
      PowMonotone(b, n, k - 1);
      PowPositive(b, k - 1);
      assert Pow(b, k) == b * Pow(b, k - 1);
    }
  }

  lemma {:induction false} PowAdd(b: nat, n: nat, m: nat)
    ensures Pow(b, n + m) == Pow(b, n) * Pow(b, m)
  {
    if m > 0 {
      PowAdd(b, n, m - 1);
      assert Pow(b, n + m) == b * Pow(b, n + m - 1);
    }
  }

  /** Raising a power: (b^e)^k == b^(e*k). */
  lemma {:induction false} PowOfPow(b: nat, e: nat, k: nat)
    ensures Pow(Pow(b, e), k) == Pow(b, e * k)
  {
    if k > 0 {
      PowOfPow(b, e, k - 1);
      PowAdd(b, e, e * (k - 1));
      assert e * k == e + e * (k - 1);
    }
  }

  /** Powers of a base of at least two are at least two, once the exponent is positive. */
  lemma PowAtLeastTwo(b: nat, n: nat)
    requires b >= 2
    requires n >= 1
    ensures Pow(b, n) >= 2
  {
    PowPositive(b, n - 1);
  }

  /** Below B^n, for B >= 2 and n >= 1, lies B^(n-1) still. */
  lemma PowPredecessor(b: nat, n: nat)
    requires b >= 2
    requires n >= 1
    ensures Pow(b, n) - 1 >= Pow(b, n - 1)
  {
    var p := Pow(b, n - 1);
    PowPositive(b, n - 1);
    assert Pow(b, n) == b * p;
    assert b * p >= 2 * p;
  }

  lemma MulMonotone(c: nat, x: nat, y: nat)
    requires x <= y
    ensures c * x <= c * y
  {
  }

  /** One more low word below the base keeps w + B*rest below B*p when rest < p. */
  lemma LowWordStep(w: nat, base: nat, rest: nat, p: nat)
    requires w < base
    requires rest < p
    ensures w + base * rest < base * p
  {
    MulMonotone(base, rest + 1, p);
    assert base * (rest + 1) == base * rest + base;
  }

  /** An n-word vector denotes a number below B^n. */
  lemma {:induction false} ValueBelowPow(s: seq<nat>, base: nat)
    requires base >= 1
    requires WordsBelow(s, base)
    ensures Value(s, base) < Pow(base, |s|)
  {
    if |s| > 0 {
      assert WordsBelow(s[1..], base);
      ValueBelowPow(s[1..], base);
      LowWordStep(s[0], base, Value(s[1..], base), Pow(base, |s| - 1));
    }
  }

  /** A vector whose value reaches B^k has more than k words. */
  lemma ValueNeedsWords(s: seq<nat>, base: nat, k: nat)
    requires base >= 1
    requires WordsBelow(s, base)
    requires Value(s, base) >= Pow(base, k)
    ensures |s| > k
  {
    ValueBelowPow(s, base);
    if |s| <= k {
      PowMonotone(base, |s|, k);
    }
  }

  /** A normalized nonempty n-word vector denotes at least B^(n-1): no word is wasted. */
  lemma {:induction false} ValueAtLeastTopPow(s: seq<nat>, base: nat)
    requires base >= 1
    requires Normalized(s, base)
    requires |s| > 0
    ensures Value(s, base) >= Pow(base, |s| - 1)
  {
    if |s| > 1 {
      assert Normalized(s[1..], base);
      ValueAtLeastTopPow(s[1..], base);
      assert Value(s[1..], base) >= Pow(base, |s| - 2);
      assert base * Value(s[1..], base) >= base * Pow(base, |s| - 2);
    }
  }

  /** If n < B^k, then n needs at most k words. */
  lemma {:induction false} DigitsFit(n: nat, base: nat, k: nat)
    requires base >= 2
    requires n < Pow(base, k)
    ensures |Digits(n, base)| <= k
    decreases n
  {
    if n > 0 {
      var p := Pow(base, k - 1);
      DivBelow(n, base, p);
      DigitsFit(n / base, base, k - 1);
      DigitsLength(n, base);
    }
  }

  /** A positive number takes one word more than its quotient by the base. */
  lemma DigitsLength(n: nat, base: nat)
    requires base >= 2
    requires n > 0
    ensures |Digits(n, base)| == 1 + |Digits(n / base, base)|
  {
  }

  /** Dropping the low word of a number below B*p leaves a number below p. */
  lemma DivBelow(n: nat, base: nat, p: nat)
    requires base >= 2
    requires n < base * p
    ensures n / base < p
  {
    var q := n / base;
    assert base * q + n % base == n;
    if q >= p {
      MulMonotone(base, p, q);
    }
  }

  /** The largest n-word number, B^n - 1, takes exactly n words. */
  lemma AllOnesDigits(base: nat, n: nat)
    requires base >= 2
    ensures Pow(base, n) >= 1
    ensures |Digits(Pow(base, n) - 1, base)| == n
  {
    PowPositive(base, n);
    var x := Pow(base, n) - 1;
    DigitsFit(x, base, n);
    if n > 0 {
      PowPredecessor(base, n);
      ValueNeedsWords(Digits(x, base), base, n - 1);
    }
  }

  lemma MulAtLeastFactor(base: nat, d: int)
    requires d >= 1
    ensures base * d >= base
  {
  }

  lemma DivModOfLowWord(lo: nat, hi: nat, base: nat)
    requires base >= 2
    requires lo < base
    ensures (lo + base * hi) % base == lo
    ensures (lo + base * hi) / base == hi
  {
    var x := lo + base * hi;
    var q, r := x / base, x % base;
    assert x == base * q + r;
    assert 0 <= r < base;
    var d := q - hi;
    assert base * d == lo - r by {
      assert base * d == base * q - base * hi;
    }
    if d > 0 {
      MulAtLeastFactor(base, d);
    } else if d < 0 {
      MulAtLeastFactor(base, -d);
    }
    assert d == 0;
  }

  /** Digits is the inverse of Value on normalized vectors: the representation is unique. */
  lemma {:induction false} DigitsOfValue(s: seq<nat>, base: nat)
    requires base >= 2
    requires Normalized(s, base)
    ensures Digits(Value(s, base), base) == s
  {
    if |s| > 0 {
      var v := Value(s, base);
      ValueAtLeastTopPow(s, base);
      PowPositive(base, |s| - 1);
      assert v > 0;
      DivModOfLowWord(s[0], Value(s[1..], base), base);
      assert Normalized(s[1..], base);
      DigitsOfValue(s[1..], base);
      assert Digits(v, base) == [s[0]] + s[1..];
    }
  }

  /** A sum of numbers fitting in n and m words fits in max(n, m) + 1 words. */
  lemma SumFits(a: nat, b: nat, base: nat, n: nat, m: nat, k: nat)
    requires base >= 2
    requires a < Pow(base, n)
    requires b < Pow(base, m)
    requires n <= k && m <= k
    ensures a + b < Pow(base, k + 1)
  {
    PowMonotone(base, n, k);
    PowMonotone(base, m, k);
    var p := Pow(base, k);
    assert a + b < 2 * p;
    assert 2 * p <= base * p;
    assert Pow(base, k + 1) == base * p;
  }

  /** A product of numbers fitting in n and m words fits in n + m words. */
  lemma ProductFits(a: nat, b: nat, base: nat, n: nat, m: nat)
    requires base >= 2
    requires a < Pow(base, n)
    requires b < Pow(base, m)
    ensures a * b < Pow(base, n + m)
  {
    PowAdd(base, n, m);
    var p, q := Pow(base, n), Pow(base, m);
    if b > 0 {
      MulMonotone(b, a + 1, p);
      assert b * (a + 1) == b * a + b;
      MulMonotone(p, b, q);
    } else {
      PowPositive(base, n + m);
    }
  }
}
