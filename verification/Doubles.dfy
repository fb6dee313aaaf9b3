/** IEEE 754 binary64 values as their 64-bit patterns: the exact value of a
    pattern, its order, and the few operations the key generator does. */
module Doubles {
  import opened Powers

  const TWO_63 := 0x8000_0000_0000_0000
  const TWO_64 := 0x1_0000_0000_0000_0000
  const TWO_52 := 0x10_0000_0000_0000
  const TWO_53 := 0x20_0000_0000_0000

  /** The bit pattern of a double, `f64::to_bits`. */
  type Double = b: int | 0 <= b < TWO_64

  predicate Negative(x: Double) {
    x >= TWO_63
  }

  /** The pattern without its sign bit. */
  function Magnitude(x: Double): (m: nat)
    ensures m < TWO_63
  {
    if Negative(x) then x - TWO_63 else x
  }

  predicate IsNaN(x: Double) {
    Magnitude(x) > 2047 * TWO_52
  }

  /** The absolute value in units of 2^-1074, the smallest subnormal: the
      fraction field for a subnormal, else (2^52 + fraction) * 2^(exponent - 1).
      Infinity comes out larger than every finite value. */
  function Scaled(m: nat): nat {
    if m / TWO_52 == 0 then m else (TWO_52 + m % TWO_52) * Pow2(m / TWO_52 - 1)
  }

  /** The value of a pattern in units of 2^-1074. -0 and 0 are both 0. */
  function Value(x: Double): int {
    var m: int := Scaled(Magnitude(x));
    if Negative(x) then -m else m
  }

  /** A larger magnitude pattern is a larger absolute value. */
  lemma ScaledOrder(m: nat, n: nat)
    requires m < n
    ensures Scaled(m) < Scaled(n)
  {
    var e, f := m / TWO_52, n / TWO_52;
    var r, s := m % TWO_52, n % TWO_52;
    assert e <= f;
    if e == f {
      if e > 0 {
        var p := Pow2(e - 1);
        assert (TWO_52 + r) * p < (TWO_52 + s) * p by {
          assert (TWO_52 + s) * p == (TWO_52 + r) * p + (s - r) * p;
          Positive(s - r, p);
        }
      }
    } else {
      var q := Pow2(f - 1);
      Raise(s, q);
      if e > 0 {
        var p := Pow2(e - 1);
        Pow2Grows(e, f - 1);
        assert q >= 2 * p;
        Bounded(r, p);
        assert Scaled(m) < 2 * TWO_52 * p;
      }
    }
  }

  lemma Positive(a: nat, b: nat)
    requires a > 0 && b > 0
    ensures a * b > 0
  {
  }

  lemma Raise(s: nat, q: nat)
    requires q > 0
    ensures (TWO_52 + s) * q >= TWO_52 * q
  {
  }

  lemma Bounded(r: nat, p: nat)
    requires r < TWO_52 && p > 0
    ensures (TWO_52 + r) * p < 2 * TWO_52 * p
  {
    assert 2 * TWO_52 * p == (TWO_52 + r) * p + (TWO_52 - r) * p;
    Positive(TWO_52 - r, p);
  }

  /** Equal values are equal patterns, up to the sign of zero. */
  lemma ValueInjective(x: Double, y: Double)
    requires Value(x) == Value(y)
    ensures x == y || (Magnitude(x) == 0 && Magnitude(y) == 0)
  {
    if Magnitude(x) < Magnitude(y) {
      ScaledOrder(Magnitude(x), Magnitude(y));
    } else if Magnitude(y) < Magnitude(x) {
      ScaledOrder(Magnitude(y), Magnitude(x));
    }
    if Magnitude(x) > 0 {
      ScaledOrder(0, Magnitude(x));
    }
  }

  // ---- integers as doubles ----------------------------------------------------

  /** The exponent bias of binary64. */
  function Bias(): nat {
    1023
  }

  /** 2^-1074 fits this many times into 1. */
  function Unit(): nat {
    TWO_52 * Pow2(Bias() - 1)
  }

  /** The exponent of the highest set bit. */
  function Log2(k: nat): (j: nat)
    requires k > 0
    ensures Pow2(j) <= k < Pow2(j + 1)
  {
    if k == 1 then 0 else Log2(k / 2) + 1
  }

  /** The pattern of an integer a double holds exactly. */
  function OfNat(k: nat): Double
    requires 1 <= k <= TWO_53
  {
    var j := Log2(k);
    Log2Small(k);
    if j == 53 then (1023 + 53) * TWO_52
    else
      FractionFits(k);
      (1023 + j) * TWO_52 + (k * Pow2(52 - j) - TWO_52)
  }

  lemma Pow2Of52()
    ensures Pow2(52) == TWO_52 && Pow2(53) == TWO_53
  {
    assert Pow2(13) == 8192;
    PowSquare(13, 8192);
    PowSquare(26, 8192 * 8192);
  }

  lemma PowSquare(n: nat, p: nat)
    requires Pow2(n) == p
    ensures Pow2(n + n) == p * p
  {
    Pow2Add(n, n);
  }

  lemma Log2Small(k: nat)
    requires 1 <= k <= TWO_53
    ensures Log2(k) <= 53 && (Log2(k) == 53 ==> k == TWO_53)
  {
    Pow2Of52();
    if Log2(k) > 53 {
      Pow2Grows(54, Log2(k));
    }
  }

  lemma FractionFits(k: nat)
    requires 1 <= k <= TWO_53 && Log2(k) <= 52
    ensures TWO_52 <= k * Pow2(52 - Log2(k)) < 2 * TWO_52
  {
    var j := Log2(k);
    Pow2Of52();
    Pow2Add(j, 52 - j);
    Between(Pow2(j), k, Pow2(52 - j));
  }

  lemma Between(p: nat, k: nat, q: nat)
    requires p <= k < 2 * p && q > 0
    ensures p * q <= k * q < 2 * (p * q)
  {
    assert k * q == p * q + (k - p) * q;
    assert 2 * (p * q) == k * q + (2 * p - k) * q;
    Positive(2 * p - k, q);
  }

  lemma ScaledSplit(e: nat, r: nat)
    requires e > 0 && r < TWO_52
    ensures Scaled(e * TWO_52 + r) == (TWO_52 + r) * Pow2(e - 1)
  {
    assert (e * TWO_52 + r) / TWO_52 == e;
  }

  lemma Regroup(k: nat, q: nat, t: nat, u: nat)
    requires q * t == u
    ensures (k * q) * t == k * u
  {
  }

  lemma ShiftedUnit(k: nat, j: nat, c: nat, b: nat)
    requires j <= c && b > 0
    ensures (k * Pow2(c - j)) * Pow2(b + j - 1) == k * (Pow2(c) * Pow2(b - 1))
  {
    Pow2Add(c - j, b + j - 1);
    Pow2Add(c, b - 1);
    assert c - j + (b + j - 1) == c + (b - 1);
    Regroup(k, Pow2(c - j), Pow2(b + j - 1), Pow2(c) * Pow2(b - 1));
  }

  lemma TopUnit(b: nat)
    requires b > 0
    ensures TWO_52 * Pow2(b + 52) == TWO_53 * (TWO_52 * Pow2(b - 1))
  {
    Pow2Of52();
    Pow2Add(53, b - 1);
  }

  lemma FractionValue(j: nat, k: nat, x: Double)
    requires j <= 52 && TWO_52 <= k * Pow2(52 - j) < 2 * TWO_52
    requires x == (1023 + j) * TWO_52 + (k * Pow2(52 - j) - TWO_52)
    ensures Value(x) == k * Unit()
  {
    var b, t := Bias(), k * Pow2(52 - j);
    ScaledSplit(b + j, t - TWO_52);
    ShiftedUnit(k, j, 52, b);
    Pow2Of52();
  }

  lemma TopValue(x: Double)
    requires x == (1023 + 53) * TWO_52
    ensures Value(x) == TWO_53 * Unit()
  {
    ScaledSplit(Bias() + 53, 0);
    TopUnit(Bias());
  }

  /** `OfNat` is exact: the pattern's value is the integer. */
  lemma OfNatExact(k: nat)
    requires 1 <= k <= TWO_53
    ensures Value(OfNat(k)) == k * Unit()
  {
    Log2Small(k);
    if Log2(k) == 53 {
      TopValue(OfNat(k));
    } else {
      FractionFits(k);
      FractionValue(Log2(k), k, OfNat(k));
    }
  }

  lemma OfNatIsNumber(k: nat)
    requires 1 <= k <= TWO_53
    ensures !IsNaN(OfNat(k))
  {
    Log2Small(k);
    if Log2(k) < 53 {
      FractionFits(k);
      PatternBelow(Log2(k), k * Pow2(52 - Log2(k)));
    }
  }

  lemma PatternBelow(j: nat, f: nat)
    requires j <= 52 && TWO_52 <= f < 2 * TWO_52
    ensures (1023 + j) * TWO_52 + (f - TWO_52) < 2047 * TWO_52
  {
  }

  /** One, two and 2^53 as the standard's bit patterns (section 3.4 of IEEE 754). */
  lemma PatternsSpelled()
    ensures OfNat(1) == 0x3FF0_0000_0000_0000 && OfNat(2) == 0x4000_0000_0000_0000
    ensures OfNat(TWO_53) == 0x4340_0000_0000_0000
  {
    assert Log2(1) == 0 && Log2(2) == 1;
    Pow2Of52();
    Log2Small(TWO_53);
    LogOfPower();
  }

  lemma LogOfPower()
    ensures Log2(TWO_53) == 53
  {
    Pow2Of52();
    var j := Log2(TWO_53);
    if j < 53 {
      Pow2Grows(j + 1, 53);
    } else if j > 53 {
      Pow2Grows(54, j);
    }
  }
}
