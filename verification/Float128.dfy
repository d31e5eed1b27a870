/**
 The 128-bit floating-point format as four 32-bit words, least significant first, and
 rounding to an integral value (sections 4.3 and 5.9 of IEEE 754-2008).
 */
module Float128 {
  import opened Bits
  import opened Common

  const W := TWO32
  type Word = x: int | 0 <= x < W

  const TWO112 := 0x1_0000_0000_0000_0000_0000_0000_0000

  /** The rounding modes of the build (round-to-odd is not compiled in). */
  datatype Mode = NearEven | MinMag | Min | Max | NearMaxMag

  // ----- Little-endian values -----

  /** The number written by words `i` up to `n`, least significant first. */
  ghost function Range(s: seq<Word>, i: nat, n: nat): int
    requires i <= n <= |s|
    decreases n - i
  {
    if i == n then 0 else s[i] + W * Range(s, i + 1, n)
  }

  /** The number written by all words. */
  ghost function Val(s: seq<Word>): int { Range(s, 0, |s|) }

  lemma {:induction false} RangeSplit(s: seq<Word>, i: nat, m: nat, n: nat)
    requires i <= m <= n <= |s|
    ensures Range(s, i, n) == Range(s, i, m) + Scale(Range(s, m, n), 32 * (m - i))
    decreases m - i
  {
    if i >= m {
    } else {
      RangeSplit(s, i + 1, m, n);
      ScaleWord(Scale(Range(s, m, n), 32 * (m - i - 1)));
      ScaleScale(Range(s, m, n), 32 * (m - i - 1), WORD_BITS);
    }
  }

  lemma {:induction false} RangeBound(s: seq<Word>, i: nat, n: nat)
    requires i <= n <= |s|
    ensures 0 <= Range(s, i, n) < Scale(1, 32 * (n - i))
    decreases n - i
  {
    if i >= n {
    } else {
      RangeBound(s, i + 1, n);
      ScaleWord(Scale(1, 32 * (n - i - 1)));
      ScaleScale(1, 32 * (n - i - 1), WORD_BITS);
    }
  }

  lemma {:induction false} RangeZero(s: seq<Word>, i: nat, n: nat)
    requires i <= n <= |s|
    ensures Range(s, i, n) == 0 <==> forall x :: i <= x < n ==> s[x] == 0
    decreases n - i
  {
    if i >= n {
    } else {
      RangeBound(s, i + 1, n);
      RangeZero(s, i + 1, n);
    }
  }

  lemma {:induction false} RangeSame(s: seq<Word>, t: seq<Word>, i: nat, n: nat)
    requires i <= n <= |s| && n <= |t| && forall x :: i <= x < n ==> s[x] == t[x]
    ensures Range(s, i, n) == Range(t, i, n)
    decreases n - i
  {
    if i >= n {
    } else {
      RangeSame(s, t, i + 1, n);
    }
  }

  /** One more word on top. */
  lemma RangeNext(s: seq<Word>, i: nat, n: nat)
    requires i <= n < |s|
    ensures Range(s, i, n + 1) == Range(s, i, n) + Scale(s[n], 32 * (n - i))
  {
    RangeSplit(s, i, n, n + 1);
    assert Range(s, n + 1, n + 1) == 0;
    assert Range(s, n, n + 1) == s[n];
  }

  lemma ValFour(s: seq<Word>)
    requires |s| == 4
    ensures Val(s) == s[0] + W * s[1] + W * W * s[2] + W * W * W * s[3]
  {
    assert Range(s, 4, 4) == 0;
    assert Range(s, 3, 4) == s[3];
    assert Range(s, 2, 4) == s[2] + W * s[3];
    assert Range(s, 1, 4) == s[1] + W * (s[2] + W * s[3]);
  }

  // ----- Fields and denoted value -----

  predicate Negative(w: seq<Word>) requires |w| == 4 { w[3] >= 0x8000_0000 }
  function Exponent(w: seq<Word>): int requires |w| == 4 { w[3] / 0x1_0000 % 0x8000 }
  function HighFraction(w: seq<Word>): int requires |w| == 4 { w[3] % 0x1_0000 }
  function PackHigh(negative: bool, exp: int, frac: int): Word
    requires 0 <= exp < 0x8000 && 0 <= frac < 0x1_0000
  {
    (if negative then 0x8000_0000 else 0) + exp * 0x1_0000 + frac
  }

  ghost predicate Finite(w: seq<Word>) { |w| == 4 && Exponent(w) != 0x7FFF }
  predicate LowWordsZero(w: seq<Word>) requires |w| == 4 { w[2] == 0 && w[1] == 0 && w[0] == 0 }
  predicate IsNaN(w: seq<Word>) requires |w| == 4 {
    Exponent(w) == 0x7FFF && !(HighFraction(w) == 0 && LowWordsZero(w))
  }
  predicate IsSignaling(w: seq<Word>) requires |w| == 4 {
    w[3] / 0x8000 % 0x1_0000 == 0xFFFE && !(w[3] % 0x8000 == 0 && LowWordsZero(w))
  }

  /** All 112 fraction bits. */
  ghost function Fraction(w: seq<Word>): nat
    requires |w| == 4
  {
    HighFraction(w) * (W * W * W) + w[2] * (W * W) + w[1] * W + w[0]
  }

  /** The absolute value that a finite pattern stands for. */
  ghost function Magnitude(w: seq<Word>): real
    requires Finite(w)
  {
    var e := Exponent(w);
    ScaleZero(0x406F);
    if e == 0 then Over(Fraction(w), 0x406E - e)
    else if e < 0x406F then Over(TWO112 + Fraction(w), 0x406F - e)
    else Scale(TWO112 + Fraction(w), e - 0x406F) as real
  }

  /** `s / 2^p`. */
  ghost function Over(s: int, p: nat): real {
    ScaleZero(p);
    s as real / Scale(1, p) as real
  }

  ghost function Value(w: seq<Word>): real
    requires Finite(w)
  {
    if Negative(w) then -Magnitude(w) else Magnitude(w)
  }

  /** Section 4.3 of IEEE 754-2008 applied to integral results. */
  ghost function RoundIntegral(x: real, mode: Mode): int {
    var f := x.Floor;
    var d := x - f as real;
    match mode
    case Min => f
    case Max => if d == 0.0 then f else f + 1
    case MinMag => if d == 0.0 || x >= 0.0 then f else f + 1
    case NearEven => if d < 0.5 then f else if d > 0.5 then f + 1 else if f % 2 == 0 then f else f + 1
    case NearMaxMag => if d < 0.5 then f else if d > 0.5 then f + 1 else if x >= 0.0 then f + 1 else f
  }

  /** What rounding does to an absolute value. */
  ghost function RoundMagnitude(m: real, negative: bool, mode: Mode): int {
    var f := m.Floor;
    var d := m - f as real;
    match mode
    case Min => if negative && d != 0.0 then f + 1 else f
    case Max => if !negative && d != 0.0 then f + 1 else f
    case MinMag => f
    case NearEven => if d < 0.5 || (d == 0.5 && f % 2 == 0) then f else f + 1
    case NearMaxMag => if d < 0.5 then f else f + 1
  }

  lemma RoundMagnitudeSigned(m: real, negative: bool, mode: Mode)
    requires m >= 0.0
    ensures var x := if negative then -m else m;
            var r := RoundMagnitude(m, negative, mode);
            RoundIntegral(x, mode) == if negative then -r else r
  {
    var f := m.Floor;
    if negative {
      var x := -m;
      if m == f as real {
        assert x.Floor == -f;
      } else {
        assert x.Floor == -f - 1;
      }
    }
  }

  /** The result and the inexact flag are those the standard prescribes. */
  ghost predicate Rounded(a: seq<Word>, mode: Mode, exact: bool, z: seq<Word>, inexact: bool)
    requires Finite(a)
  {
    && Finite(z) && Negative(z) == Negative(a)
    && Value(z) == RoundIntegral(Value(a), mode) as real
    && (inexact <==> exact && Value(z) != Value(a))
  }

  // ----- Rounding a pattern to a multiple of a power of two -----

  /** Whether quotient `q` with remainder `r`, half the divisor being `h`, is rounded away from zero. */
  ghost predicate GoesUp(q: int, r: int, h: int, negative: bool, mode: Mode) {
    match mode
    case MinMag => false
    case Min => negative && r != 0
    case Max => !negative && r != 0
    case NearEven => r > h || (r == h && q % 2 == 1)
    case NearMaxMag => r >= h
  }

  /** The unit in which a directed or nearest rounding moves. */
  ghost function Up(up: bool): int { if up then 1 else 0 }

  /** The pattern `u`, cut at bit `p` and rounded there. */
  ghost function RoundPattern(u: int, p: nat, negative: bool, mode: Mode): int
    requires p > 0
  {
    Scale(Shr(u, p) + Up(GoesUp(Shr(u, p), Low(u, p), Scale(1, p - 1), negative, mode)), p)
  }

  // ----- Decoding a pattern -----

  ghost function SignBit(w: seq<Word>): nat requires |w| == 4 { if Negative(w) then 0x8000 else 0 }

  /** The pattern read as one number. */
  lemma PatternFields(w: seq<Word>)
    requires |w| == 4
    ensures Val(w) == (SignBit(w) + Exponent(w)) * TWO112 + Fraction(w)
    ensures 0 <= Fraction(w) < TWO112
  {
    ValFour(w);
    var h := w[3] / 0x1_0000;
    assert w[3] == h * 0x1_0000 + HighFraction(w);
    assert h == SignBit(w) + Exponent(w);
  }

  lemma FieldsUnique(z: seq<Word>, sgn: nat, e: nat, f: nat)
    requires |z| == 4 && (sgn == 0 || sgn == 0x8000) && e < 0x8000 && f < TWO112
    requires Val(z) == (sgn + e) * TWO112 + f
    ensures SignBit(z) == sgn && Exponent(z) == e && Fraction(z) == f
  {
    PatternFields(z);
  }

  /** Cutting a pattern at bit `p` cuts its significand there; the quotients have the same parity. */
  lemma CutPattern(w: seq<Word>, p: nat)
    requires |w| == 4 && 0x3FFF <= Exponent(w) < 0x406F && p == 0x406F - Exponent(w)
    ensures
      var s := TWO112 + Fraction(w);
      var lift := Scale(SignBit(w) + Exponent(w) - 1, FRACTION_BITS - p);
      && Shr(Val(w), p) == Shr(s, p) + lift
      && Low(Val(w), p) == Low(s, p)
      && lift % 2 == 0
      && 0 < Scale(1, FRACTION_BITS - p) <= Shr(s, p) < Scale(2, FRACTION_BITS - p)
  {
    PatternFields(w);
    var e, s := SignBit(w) + Exponent(w) - 1, TWO112 + Fraction(w);
    AtFraction(e, p);
    CutSum(Scale(e, FRACTION_BITS - p), s, p);
    CutSignificand(s, p);
    LiftIsEven(e, p);
  }

  lemma LiftIsEven(e: int, p: nat)
    requires p <= FRACTION_BITS && (p == FRACTION_BITS ==> e % 2 == 0)
    ensures Scale(e, FRACTION_BITS - p) % 2 == 0
  {}

  /** A number above the fraction bits, seen from a cut inside them. */
  lemma AtFraction(x: int, p: nat)
    requires p <= FRACTION_BITS
    ensures Scale(Scale(x, FRACTION_BITS - p), p) == x * TWO112
  {
    ScaleScale(x, FRACTION_BITS - p, p);
    ScaleFraction(x);
  }

  lemma CutSignificand(s: int, p: nat)
    requires p <= FRACTION_BITS && TWO112 <= s < 2 * TWO112
    ensures 0 < Scale(1, FRACTION_BITS - p) <= Shr(s, p) < Scale(2, FRACTION_BITS - p)
  {
    AtFraction(1, p);
    AtFraction(2, p);
    ScaleZero(FRACTION_BITS - p);
    ShrOrder(s, Scale(1, FRACTION_BITS - p), p);
    ShrOrder(s, Scale(2, FRACTION_BITS - p), p);
  }

  // ----- From integers to the real value -----

  lemma SumOverDivisor(s: real, q: real, r: real, d: real)
    requires d > 0.0 && s == q * d + r
    ensures s / d == q + r / d
  {
    assert (q + r / d) * d == s;
  }

  lemma CompareQuotient(x: real, d: real, c: real)
    requires d > 0.0
    ensures x / d < c <==> x < c * d
    ensures x / d == c <==> x == c * d
  {
    var f := x / d;
    assert (c - f) * d == c * d - x;
    SignOfProduct(c - f, d);
  }

  lemma SignOfProduct(g: real, d: real)
    requires d > 0.0
    ensures g * d > 0.0 <==> g > 0.0
    ensures g * d == 0.0 <==> g == 0.0
  {}

  lemma IntProduct(x: int, y: int)
    ensures (x * y) as real == x as real * y as real
  {}

  lemma QuotientOfProduct(n: real, d: real)
    requires d > 0.0
    ensures n * d / d == n
  {}

  /** The integer and the fraction part of `s / 2^p`. */
  lemma OverParts(s: int, p: nat)
    requires p > 0
    ensures
      var (m, q, r, h) := (Over(s, p), Shr(s, p), Low(s, p), Scale(1, p - 1));
      && m.Floor == q
      && (m - q as real < 0.5 <==> r < h)
      && (m - q as real == 0.5 <==> r == h)
      && (m == q as real <==> r == 0)
  {
    LowBounds(s, p);
    ScaleZero(p);
    ScaleProduct(Shr(s, p), p);
    var (q, r, d) := (Shr(s, p), Low(s, p), Scale(1, p));
    IntProduct(q, d);
    SumOverDivisor(s as real, q as real, r as real, d as real);
    FractionTests(r, d, Scale(1, p - 1));
  }

  lemma FractionTests(r: int, d: int, h: int)
    requires 0 <= r < d && d == 2 * h
    ensures 0.0 <= r as real / d as real < 1.0
    ensures r as real / d as real < 0.5 <==> r < h
    ensures r as real / d as real == 0.5 <==> r == h
    ensures r as real / d as real == 0.0 <==> r == 0
  {
    CompareQuotient(r as real, d as real, 0.0);
    CompareQuotient(r as real, d as real, 0.5);
    CompareQuotient(r as real, d as real, 1.0);
  }

  lemma OverWhole(n: int, p: nat)
    ensures Over(Scale(n, p), p) == n as real
  {
    ScaleZero(p);
    ScaleProduct(n, p);
    IntProduct(n, Scale(1, p));
    QuotientOfProduct(n as real, Scale(1, p) as real);
  }

  lemma OverNonNegative(s: nat, p: nat)
    ensures Over(s, p) >= 0.0
  {
    ScaleZero(p);
    CompareQuotient(s as real, Scale(1, p) as real, 0.0);
  }

  /** A pattern whose significand part is the multiple `n * 2^p` denotes the integer `n`. */
  lemma RoundedFields(w: seq<Word>, z: seq<Word>, p: nat, n: nat)
    requires |w| == 4 && |z| == 4 && 0x3FFF <= Exponent(w) < 0x406F && p == 0x406F - Exponent(w)
    requires Scale(1, FRACTION_BITS - p) <= n <= Scale(2, FRACTION_BITS - p)
    requires Val(z) == Scale(n + Scale(SignBit(w) + Exponent(w) - 1, FRACTION_BITS - p), p)
    ensures Finite(z) && Negative(z) == Negative(w) && Magnitude(z) == n as real
  {
    var e := SignBit(w) + Exponent(w) - 1;
    var (lo, hi) := (Scale(1, FRACTION_BITS - p), Scale(2, FRACTION_BITS - p));
    ScaleAdd(n, Scale(e, FRACTION_BITS - p), p);
    AtFraction(e, p);
    AtFraction(1, p);
    AtFraction(2, p);
    ScaleOrder(n, lo, p);
    ScaleOrder(n, hi, p);
    var m := Scale(n, p);
    assert Val(z) == m + e * TWO112 && TWO112 <= m <= 2 * TWO112;
    if m < 2 * TWO112 {
      FieldsUnique(z, SignBit(w), Exponent(w), m - TWO112);
      OverWhole(n, p);
    } else {
      FieldsUnique(z, SignBit(w), Exponent(w) + 1, 0);
      assert m == 2 * Scale(n, p - 1);
      if p > 1 { OverWhole(n, p - 1); }
    }
  }

  /** Rounding a magnitude in integers. */
  lemma MagnitudeRounds(s: nat, p: nat, negative: bool, mode: Mode)
    requires p > 0
    ensures
      var r := RoundMagnitude(Over(s, p), negative, mode);
      && r == Shr(s, p) + Up(GoesUp(Shr(s, p), Low(s, p), Scale(1, p - 1), negative, mode))
      && (Over(s, p) == r as real <==> Low(s, p) == 0)
  {
    OverParts(s, p);
    ScaleZero(p - 1);
  }

  /** The rounded pattern denotes the rounded magnitude, also when the carry reaches the exponent. */
  lemma RoundedPatternDenotes(w: seq<Word>, z: seq<Word>, p: nat, mode: Mode)
    requires |w| == 4 && |z| == 4 && 0x3FFF <= Exponent(w) < 0x406F && p == 0x406F - Exponent(w)
    requires Val(z) == RoundPattern(Val(w), p, Negative(w), mode)
    ensures Finite(z) && Negative(z) == Negative(w)
    ensures Value(z) == RoundIntegral(Value(w), mode) as real
    ensures Value(z) == Value(w) <==> Low(Val(w), p) == 0
  {
    PatternFields(w);
    var s := TWO112 + Fraction(w);
    MagnitudeRounds(s, p, Negative(w), mode);
    OverNonNegative(s, p);
    RoundMagnitudeSigned(Over(s, p), Negative(w), mode);
    RoundedSignificand(w, z, p, mode);
  }

  lemma RoundedSignificand(w: seq<Word>, z: seq<Word>, p: nat, mode: Mode)
    requires |w| == 4 && |z| == 4 && 0x3FFF <= Exponent(w) < 0x406F && p == 0x406F - Exponent(w)
    requires Val(z) == RoundPattern(Val(w), p, Negative(w), mode)
    ensures
      var s := TWO112 + Fraction(w);
      var n := Shr(s, p) + Up(GoesUp(Shr(s, p), Low(s, p), Scale(1, p - 1), Negative(w), mode));
      && Finite(z) && Negative(z) == Negative(w) && Magnitude(z) == n as real
      && Low(s, p) == Low(Val(w), p)
  {
    CutPattern(w, p);
    var s := TWO112 + Fraction(w);
    var lift := Scale(SignBit(w) + Exponent(w) - 1, FRACTION_BITS - p);
    EvenLift(Shr(s, p), lift, Low(s, p), Scale(1, p - 1), Negative(w), mode);
    var n := Shr(s, p) + Up(GoesUp(Shr(s, p), Low(s, p), Scale(1, p - 1), Negative(w), mode));
    assert Val(z) == Scale(n + lift, p);
    assert n <= Scale(2, FRACTION_BITS - p);
    RoundedFields(w, z, p, n);
  }

  lemma EvenLift(q: int, lift: int, r: int, h: int, negative: bool, mode: Mode)
    requires lift % 2 == 0
    ensures GoesUp(q + lift, r, h, negative, mode) == GoesUp(q, r, h, negative, mode)
  {}
}
