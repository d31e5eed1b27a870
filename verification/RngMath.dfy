/**
 Time-of-flight arithmetic of lib/rng_math: eight wrapped 32-bit timestamps are
 turned into a quotient.  Rounding of the final binary64 division is not modelled:
 the quotient is a `real`.
 */
module RngMath {
  import opened Common

  /** The result of the ranging functions: a number or NaN. */
  datatype Tof = NaN | Tof(value: real)

  /** Reinterprets a 64-bit pattern as a signed integer. */
  function AsSigned64(x: int): (r: int)
    ensures -TWO63 <= r < TWO63
    ensures -TWO63 <= x < TWO63 ==> r == x
  {
    var u := x % TWO64;
    if u < TWO63 then u else u - TWO64
  }

  /** `(later - earlier)` in 32-bit unsigned arithmetic. */
  function Sub32(later: U32, earlier: U32): U32 {
    (later - earlier) % TWO32
  }

  /** `(later - earlier) & MASK32` in 64-bit unsigned arithmetic. */
  function Sub64Masked(later: U64, earlier: U64): U32 {
    (later - earlier) % TWO64 % TWO32
  }

  function CalcTofDs(firstResponse: U32, firstRequest: U32, firstTransmission: U64, firstReception: U64,
                     response: U32, request: U32, transmission: U64, reception: U64): Tof
  {
    var round1 := Sub32(firstResponse, firstRequest);
    var reply1 := Sub64Masked(firstTransmission, firstReception);
    var round2 := Sub32(response, request);
    var reply2 := Sub64Masked(transmission, reception);
    var nom := AsSigned64(round1 * round2 - reply1 * reply2);
    var denom := AsSigned64(round1 + round2 + reply1 + reply2);
    if denom == 0 then NaN else Tof(nom as real / denom as real)
  }

  function CalcTofSymDs(firstResponse: U32, firstRequest: U32, firstTransmission: U64, firstReception: U64,
                        response: U32, request: U32, transmission: U64, reception: U64): U32
  {
    var round1 := Sub32(firstResponse, firstRequest);
    var reply1 := Sub64Masked(firstTransmission, firstReception);
    var round2 := Sub32(response, request);
    var reply2 := Sub64Masked(transmission, reception);
    (round1 - reply1 + round2 - reply2) % TWO64 / 4 % TWO32
  }

  /** The single-sided estimate, with the carrier skew given as a real. */
  function CalcTofSs(response: U32, request: U32, transmission: U64, reception: U64, skew: real): real {
    var round := Sub32(response, request);
    var reply := Sub64Masked(transmission, reception);
    (round as real - reply as real * (1.0 - skew)) / 2.0
  }

  // ----- Counters that wrap -----

  /** A 32-bit stamp taken from an unbounded tick counter. */
  function Lo32(ticks: int): U32 {
    ticks % TWO32
  }

  /** Wrapped subtraction recovers any interval shorter than one turn of the counter. */
  lemma WrappedInterval(later: int, earlier: int)
    requires 0 <= later - earlier < TWO32
    ensures Sub32(Lo32(later), Lo32(earlier)) == later - earlier
    ensures Sub64Masked(Lo32(later), Lo32(earlier)) == later - earlier
  {
    var l, e := later / TWO32, earlier / TWO32;
    assert Lo32(later) - Lo32(earlier) == (later - earlier) - (l - e) * TWO32;
    assert -1 <= e - l <= 1;
    var d := Lo32(later) - Lo32(earlier);
    assert d == later - earlier || d == later - earlier - TWO32;
    if d < 0 {
      assert d % TWO64 == d + TWO64;
    }
  }

  /**
   The single-sided estimate of one turn with flight time `tof` and reply delay `delay`, where the clocks
   run at `ka` and `kb` ticks and the intervals are below one turn of the counter: off by half the delay
   times what the skew leaves of the difference of the rates, so exact if and only if it leaves nothing.
   */
  lemma SsDrift(q: int, p: int, t: int, c: int, skew: real, tof: real, delay: real, ka: real, kb: real)
    requires 0 <= p - q < TWO32 && 0 <= t - c < TWO32
    requires (p - q) as real == ka * (2.0 * tof + delay) && (t - c) as real == kb * delay
    ensures var estimate := CalcTofSs(Lo32(p), Lo32(q), Lo32(t), Lo32(c), skew);
            && estimate == ka * tof + delay * (ka - kb * (1.0 - skew)) / 2.0
            && (estimate == ka * tof <==> delay == 0.0 || kb * (1.0 - skew) == ka)
  {
    WrappedInterval(p, q);
    WrappedInterval(t, c);
    var off := ka - kb * (1.0 - skew);
    assert kb * delay * (1.0 - skew) == delay * (kb * (1.0 - skew));
    assert ka * (2.0 * tof + delay) == 2.0 * (ka * tof) + delay * ka;
    assert delay * off == delay * ka - delay * (kb * (1.0 - skew));
  }

  /** The exact quotient that four intervals stand for. */
  ghost function Quotient(round1: real, round2: real, reply1: real, reply2: real): real
    requires round1 + round2 + reply1 + reply2 != 0.0
  {
    (round1 * round2 - reply1 * reply2) / (round1 + round2 + reply1 + reply2)
  }

  lemma ProductBelow(x: nat, y: nat, m: nat)
    requires x < m && y < m
    ensures 0 <= x * y < m * m
  {
    assert x * y <= x * m <= m * m;
    assert x * y < m * m by {
      if x == 0 { assert x * y == 0; } else { assert x * y < x * m; }
    }
  }

  /**
   Whatever the counter offsets, four intervals below half a turn give exactly the
   quotient of the unwrapped intervals, and NaN exactly when all four are zero.
   */
  lemma CalcTofDsUnwraps(q1: int, p1: int, t1: int, c1: int, q2: int, p2: int, t2: int, c2: int)
    requires 0 <= p1 - q1 < TWO31 && 0 <= t1 - c1 < TWO31
    requires 0 <= p2 - q2 < TWO31 && 0 <= t2 - c2 < TWO31
    ensures
      var tof := CalcTofDs(Lo32(p1), Lo32(q1), Lo32(t1), Lo32(c1), Lo32(p2), Lo32(q2), Lo32(t2), Lo32(c2));
      var (round1, reply1, round2, reply2) := (p1 - q1, t1 - c1, p2 - q2, t2 - c2);
      if round1 + round2 + reply1 + reply2 == 0 then tof == NaN
      else tof == Tof(Quotient(round1 as real, round2 as real, reply1 as real, reply2 as real))
  {
    WrappedInterval(p1, q1);
    WrappedInterval(t1, c1);
    WrappedInterval(p2, q2);
    WrappedInterval(t2, c2);
    if (p1 - q1) + (p2 - q2) + (t1 - c1) + (t2 - c2) != 0 {
      QuotientOfShortIntervals(p1 - q1, p2 - q2, t1 - c1, t2 - c2);
    }
  }

  lemma QuotientOfShortIntervals(round1: nat, round2: nat, reply1: nat, reply2: nat)
    requires round1 < TWO31 && round2 < TWO31 && reply1 < TWO31 && reply2 < TWO31
    requires round1 + round2 + reply1 + reply2 != 0
    ensures AsSigned64(round1 * round2 - reply1 * reply2) as real
            / AsSigned64(round1 + round2 + reply1 + reply2) as real
         == Quotient(round1 as real, round2 as real, reply1 as real, reply2 as real)
  {
    ProductBelow(round1, round2, TWO31);
    ProductBelow(reply1, reply2, TWO31);
    NumeratorAsReal(round1, round2, reply1, reply2);
    StoredEqualIff(round1 * round2 - reply1 * reply2, round1 + round2 + reply1 + reply2);
  }

  /**
   Intervals of up to a whole turn: the function returns their true quotient if and
   only if the true numerator fits a signed 64-bit integer.
   */
  lemma CalcTofDsExactIff(p1: U32, q1: U32, t1: U64, c1: U64, p2: U32, q2: U32, t2: U64, c2: U64)
    requires Sub32(p1, q1) + Sub32(p2, q2) + Sub64Masked(t1, c1) + Sub64Masked(t2, c2) != 0
    ensures
      var (round1, round2) := (Sub32(p1, q1), Sub32(p2, q2));
      var (reply1, reply2) := (Sub64Masked(t1, c1), Sub64Masked(t2, c2));
      CalcTofDs(p1, q1, t1, c1, p2, q2, t2, c2)
        == Tof(Quotient(round1 as real, round2 as real, reply1 as real, reply2 as real))
      <==> -TWO63 <= round1 * round2 - reply1 * reply2 < TWO63
  {
    StoredQuotientExactIff(Sub32(p1, q1), Sub32(p2, q2), Sub64Masked(t1, c1), Sub64Masked(t2, c2));
  }

  lemma StoredQuotientExactIff(round1: U32, round2: U32, reply1: U32, reply2: U32)
    requires round1 + round2 + reply1 + reply2 != 0
    ensures
      var n := round1 * round2 - reply1 * reply2;
      AsSigned64(n) as real / AsSigned64(round1 + round2 + reply1 + reply2) as real
        == Quotient(round1 as real, round2 as real, reply1 as real, reply2 as real)
      <==> -TWO63 <= n < TWO63
  {
    NumeratorAsReal(round1, round2, reply1, reply2);
    StoredEqualIff(round1 * round2 - reply1 * reply2, round1 + round2 + reply1 + reply2);
  }

  lemma NumeratorAsReal(round1: int, round2: int, reply1: int, reply2: int)
    ensures (round1 * round2 - reply1 * reply2) as real
         == round1 as real * round2 as real - reply1 as real * reply2 as real
  {
    assert (round1 * round2) as real == round1 as real * round2 as real;
    assert (reply1 * reply2) as real == reply1 as real * reply2 as real;
  }

  lemma StoredEqualIff(n: int, d: int)
    requires 0 < d < TWO63
    ensures AsSigned64(n) as real / AsSigned64(d) as real == n as real / d as real <==> -TWO63 <= n < TWO63
  {
    EqualQuotients(AsSigned64(n) as real, n as real, d as real);
  }

  lemma EqualQuotients(x: real, y: real, d: real)
    requires d > 0.0
    ensures x / d == y / d <==> x == y
  {
    assert x == x / d * d && y == y / d * d;
  }

  // ----- The double-sided estimate cancels both reply delays -----

  /** `t` counted on the harmonic mean of two clock rates. */
  ghost function Harmonic(t: real, ka: real, kb: real): real
    requires ka > 0.0 && kb > 0.0
  {
    2.0 * t * ka * kb / (ka + kb)
  }

  /**
   Clock rates `ka`, `kb`, flight time `t` and reply delays `d1` (at B) and `d2` (at A):
   the quotient is `2*t*ka*kb/(ka+kb)`, whatever the delays are.
   */
  lemma DsCancelsReplies(ka: real, kb: real, t: real, d1: real, d2: real)
    requires ka > 0.0 && kb > 0.0 && 2.0 * t + d1 + d2 > 0.0
    ensures ka * (2.0 * t + d1) + kb * (2.0 * t + d2) + kb * d1 + ka * d2 != 0.0
    ensures Quotient(ka * (2.0 * t + d1), kb * (2.0 * t + d2), kb * d1, ka * d2)
         == Harmonic(t, ka, kb)
  {
    var w := 2.0 * t + d1 + d2;
    var n := ka * (2.0 * t + d1) * (kb * (2.0 * t + d2)) - kb * d1 * (ka * d2);
    var d := ka * (2.0 * t + d1) + kb * (2.0 * t + d2) + kb * d1 + ka * d2;
    assert d == (ka + kb) * w;
    assert n == 2.0 * t * ka * kb * w by {
      assert (2.0 * t + d1) * (2.0 * t + d2) - d1 * d2 == 2.0 * t * w;
      assert n == ka * kb * ((2.0 * t + d1) * (2.0 * t + d2) - d1 * d2) by {
        FactorRates(ka, kb, 2.0 * t + d1, 2.0 * t + d2, d1, d2);
      }
    }
    CommonFactor(2.0 * t * ka * kb, ka + kb, w);
  }

  lemma FactorRates(ka: real, kb: real, r1: real, r2: real, d1: real, d2: real)
    ensures ka * r1 * (kb * r2) - kb * d1 * (ka * d2) == ka * kb * (r1 * r2 - d1 * d2)
  {
    assert ka * r1 * (kb * r2) == ka * kb * (r1 * r2);
    assert kb * d1 * (ka * d2) == ka * kb * (d1 * d2);
  }

  lemma CommonFactor(n: real, d: real, w: real)
    requires d > 0.0 && w > 0.0
    ensures d * w > 0.0
    ensures n * w / (d * w) == n / d
  {
    var q := n / d;
    assert n * w == q * (d * w);
  }

  /** The harmonic-mean scale lies between the two clocks' own readings of `t`. */
  lemma HarmonicBetween(ka: real, kb: real, t: real)
    requires 0.0 < ka <= kb && t >= 0.0
    ensures t * ka <= Harmonic(t, ka, kb) <= t * kb
  {
    var s := ka + kb;
    var v := Harmonic(t, ka, kb);
    assert v * s == 2.0 * t * ka * kb;
    assert t * ka * (kb - ka) >= 0.0;
    assert t * kb * (kb - ka) >= 0.0;
    assert v * s - t * ka * s == t * ka * (kb - ka);
    assert t * kb * s - v * s == t * kb * (kb - ka);
    CancelFactor(t * ka, v, s);
    CancelFactor(v, t * kb, s);
  }

  lemma CancelFactor(x: real, y: real, s: real)
    requires s > 0.0 && x * s <= y * s
    ensures x <= y
  {
    assert y - x == (y * s - x * s) / s;
  }

  /** The symmetric estimate before truncation: an error `(ka-kb)*(d1-d2)/4` remains. */
  ghost function SymEstimate(ka: real, kb: real, t: real, d1: real, d2: real): real {
    t * (ka + kb) / 2.0 + (ka - kb) * (d1 - d2) / 4.0
  }

  /** In whole ticks of the wrapped counters, the result is a quarter of the intervals' sum. */
  lemma SymIsQuarter(p1: U32, q1: U32, t1: U64, c1: U64, p2: U32, q2: U32, t2: U64, c2: U64)
    ensures CalcTofSymDs(p1, q1, t1, c1, p2, q2, t2, c2)
         == (Sub32(p1, q1) - Sub64Masked(t1, c1) + Sub32(p2, q2) - Sub64Masked(t2, c2)) / 4 % TWO32
  {
    QuarterOfWrapped(Sub32(p1, q1) - Sub64Masked(t1, c1) + Sub32(p2, q2) - Sub64Masked(t2, c2));
  }

  /** Intervals of whole ticks: the estimate rounded down. */
  lemma SymKeepsDelayError(ka: real, kb: real, t: real, d1: real, d2: real,
                           p1: U32, q1: U32, t1: U64, c1: U64, p2: U32, q2: U32, t2: U64, c2: U64)
    requires Sub32(p1, q1) as real == ka * (2.0 * t + d1) && Sub64Masked(t1, c1) as real == kb * d1
    requires Sub32(p2, q2) as real == kb * (2.0 * t + d2) && Sub64Masked(t2, c2) as real == ka * d2
    ensures CalcTofSymDs(p1, q1, t1, c1, p2, q2, t2, c2) == SymEstimate(ka, kb, t, d1, d2).Floor % TWO32
  {
    var sum := Sub32(p1, q1) - Sub64Masked(t1, c1) + Sub32(p2, q2) - Sub64Masked(t2, c2);
    SymIsQuarter(p1, q1, t1, c1, p2, q2, t2, c2);
    SymSum(ka, kb, t, d1, d2);
    FloorQuarter(sum, SymEstimate(ka, kb, t, d1, d2));
  }

  lemma SymSum(ka: real, kb: real, t: real, d1: real, d2: real)
    ensures ka * (2.0 * t + d1) - kb * d1 + kb * (2.0 * t + d2) - ka * d2 == 4.0 * SymEstimate(ka, kb, t, d1, d2)
  {}

  lemma FloorQuarter(sum: int, x: real)
    requires sum as real == 4.0 * x
    ensures x.Floor == sum / 4
  {
    assert (sum / 4) as real <= x < (sum / 4 + 1) as real;
  }

  /**
   Measured intervals, each less than one tick off: the result is, modulo the counter, a whole
   number less than two ticks below and less than one above the estimate.
   */
  lemma SymMeasured(ka: real, kb: real, t: real, d1: real, d2: real,
                    p1: U32, q1: U32, t1: U64, c1: U64, p2: U32, q2: U32, t2: U64, c2: U64) returns (v: int)
    requires Distance(Sub32(p1, q1) as real, ka * (2.0 * t + d1)) < 1.0
    requires Distance(Sub64Masked(t1, c1) as real, kb * d1) < 1.0
    requires Distance(Sub32(p2, q2) as real, kb * (2.0 * t + d2)) < 1.0
    requires Distance(Sub64Masked(t2, c2) as real, ka * d2) < 1.0
    ensures CalcTofSymDs(p1, q1, t1, c1, p2, q2, t2, c2) == v % TWO32
    ensures SymEstimate(ka, kb, t, d1, d2) - 2.0 < v as real < SymEstimate(ka, kb, t, d1, d2) + 1.0
  {
    var sum := Sub32(p1, q1) - Sub64Masked(t1, c1) + Sub32(p2, q2) - Sub64Masked(t2, c2);
    v := sum / 4;
    SymIsQuarter(p1, q1, t1, c1, p2, q2, t2, c2);
    SymSum(ka, kb, t, d1, d2);
    SumOff(ka * (2.0 * t + d1), kb * d1, kb * (2.0 * t + d2), ka * d2,
           Sub32(p1, q1), Sub64Masked(t1, c1), Sub32(p2, q2), Sub64Masked(t2, c2));
    QuarterOff(sum, SymEstimate(ka, kb, t, d1, d2));
  }

  lemma SumOff(r1: real, s1: real, r2: real, s2: real, m1: int, n1: int, m2: int, n2: int)
    requires Distance(m1 as real, r1) < 1.0 && Distance(n1 as real, s1) < 1.0
    requires Distance(m2 as real, r2) < 1.0 && Distance(n2 as real, s2) < 1.0
    ensures r1 - s1 + r2 - s2 - 4.0 < (m1 - n1 + m2 - n2) as real < r1 - s1 + r2 - s2 + 4.0
  {}

  lemma QuarterOff(sum: int, x: real)
    requires 4.0 * x - 4.0 < sum as real < 4.0 * x + 4.0
    ensures x - 2.0 < (sum / 4) as real < x + 1.0
  {
    assert (4 * (sum / 4)) as real <= sum as real < (4 * (sum / 4) + 4) as real;
  }

  lemma QuarterOfWrapped(sum: int)
    requires -2 * TWO32 < sum < 2 * TWO32
    ensures sum % TWO64 / 4 % TWO32 == sum / 4 % TWO32
  {
    if sum < 0 {
      assert sum % TWO64 == sum + TWO64;
      assert (sum + TWO64) / 4 == sum / 4 + TWO32 * 0x4000_0000;
    }
  }

  // ----- Stamps are whole ticks -----

  /** Raising a round trip never lowers the quotient; raising a reply never raises it. */
  lemma QuotientMonotone(r1: real, r2: real, s1: real, s2: real, r1': real, s1': real)
    requires 0.0 <= r1 <= r1' && 0.0 <= r2 && 0.0 <= s1' <= s1 && 0.0 <= s2
    requires r1 + r2 + s1' + s2 > 0.0
    ensures r1' + r2 + s1' + s2 != 0.0 && r1 + r2 + s1 + s2 != 0.0
    ensures Quotient(r1, r2, s1, s2) <= Quotient(r1', r2, s1', s2)
  {
    RoundMonotone(r1, r1', r2, s1', s2);
    ReplyMonotone(r1, r2, s1', s1, s2);
  }

  lemma RoundMonotone(r1: real, r1': real, r2: real, s1: real, s2: real)
    requires 0.0 <= r1 <= r1' && 0.0 <= r2 && 0.0 <= s1 && 0.0 <= s2 && r1 + r2 + s1 + s2 > 0.0
    ensures r1' + r2 + s1 + s2 != 0.0
    ensures Quotient(r1, r2, s1, s2) <= Quotient(r1', r2, s1, s2)
  {
    var (n, d) := (r1 * r2 - s1 * s2, r1 + r2 + s1 + s2);
    var h := r1' - r1;
    assert r1' * r2 - s1 * s2 == n + h * r2;
    assert h * (r2 * d - n) >= 0.0 by {
      assert r2 * d - n == (r2 + s1) * (r2 + s2);
      assert (r2 + s1) * (r2 + s2) >= 0.0;
    }
    assert n * (d + h) <= (n + h * r2) * d by {
      assert (n + h * r2) * d - n * (d + h) == h * (r2 * d - n);
    }
    CrossMultiply(n, d, n + h * r2, d + h);
  }

  lemma ReplyMonotone(r1: real, r2: real, s1: real, s1': real, s2: real)
    requires 0.0 <= r1 && 0.0 <= r2 && 0.0 <= s1 <= s1' && 0.0 <= s2 && r1 + r2 + s1 + s2 > 0.0
    ensures r1 + r2 + s1' + s2 != 0.0
    ensures Quotient(r1, r2, s1', s2) <= Quotient(r1, r2, s1, s2)
  {
    var (n, d) := (r1 * r2 - s1 * s2, r1 + r2 + s1 + s2);
    var h := s1' - s1;
    assert r1 * r2 - s1' * s2 == n - h * s2;
    assert h * (s2 * d + n) >= 0.0 by {
      assert s2 * d + n == (s2 + r1) * (s2 + r2);
      assert (s2 + r1) * (s2 + r2) >= 0.0;
    }
    assert (n - h * s2) * d <= n * (d + h) by {
      assert n * (d + h) - (n - h * s2) * d == h * (s2 * d + n);
    }
    CrossMultiply(n - h * s2, d + h, n, d);
  }

  lemma CrossMultiply(n: real, d: real, n': real, d': real)
    requires d > 0.0 && d' > 0.0 && n * d' <= n' * d
    ensures n / d <= n' / d'
  {
    var (q, q') := (n / d, n' / d');
    assert n == q * d && n' == q' * d';
    assert n * d' == q * (d * d') && n' * d == q' * (d * d');
    CancelFactor(q, q', d * d');
  }

  lemma QuotientSymmetric(r1: real, r2: real, s1: real, s2: real)
    requires r1 + r2 + s1 + s2 != 0.0
    ensures r2 + r1 + s2 + s1 != 0.0
    ensures Quotient(r1, r2, s1, s2) == Quotient(r2, r1, s2, s1)
  {}

  /** Lengthening both rounds and shortening both replies by `e` adds exactly `e`. */
  lemma ShiftByTick(r1: real, r2: real, s1: real, s2: real, e: real)
    requires r1 + r2 + s1 + s2 > 0.0
    ensures r1 + e + (r2 + e) + (s1 - e) + (s2 - e) != 0.0
    ensures Quotient(r1 + e, r2 + e, s1 - e, s2 - e) == Quotient(r1, r2, s1, s2) + e
  {
    var (n, d) := (r1 * r2 - s1 * s2, r1 + r2 + s1 + s2);
    assert (r1 + e) * (r2 + e) - (s1 - e) * (s2 - e) == n + e * d;
    CommonTerm(n, d, e);
  }

  lemma CommonTerm(n: real, d: real, e: real)
    requires d > 0.0
    ensures (n + e * d) / d == n / d + e
  {
    var q := n / d;
    assert n + e * d == (q + e) * d;
  }

  lemma QuotientMonotoneBoth(r1: real, r2: real, s1: real, s2: real, r1': real, r2': real, s1': real, s2': real)
    requires 0.0 <= r1 <= r1' && 0.0 <= r2 <= r2' && 0.0 <= s1' <= s1 && 0.0 <= s2' <= s2
    requires r1 + r2 + s1' + s2' > 0.0
    ensures r1' + r2' + s1' + s2' != 0.0 && r1 + r2 + s1 + s2 != 0.0
    ensures Quotient(r1, r2, s1, s2) <= Quotient(r1', r2', s1', s2')
  {
    QuotientMonotone(r1, r2, s1, s2, r1', s1');
    QuotientSymmetric(r1', r2, s1', s2);
    QuotientMonotone(r2, r1', s2, s1', r2', s2');
    QuotientSymmetric(r2', r1', s2', s1');
  }

  /**
   The quotient of measured intervals, each less than one tick off, is less than one
   tick off.  The replies must last at least a tick.
   */
  lemma QuantisedWithinOneTick(r1: real, r2: real, s1: real, s2: real, m1: real, m2: real, n1: real, n2: real,
                               e: real)
    requires 0.0 <= e < 1.0
    requires r1 >= 1.0 && r2 >= 1.0 && s1 >= 1.0 && s2 >= 1.0
    requires r1 - e <= m1 <= r1 + e && r2 - e <= m2 <= r2 + e
    requires s1 - e <= n1 <= s1 + e && s2 - e <= n2 <= s2 + e
    ensures m1 + m2 + n1 + n2 != 0.0
    ensures Quotient(r1, r2, s1, s2) - e <= Quotient(m1, m2, n1, n2) <= Quotient(r1, r2, s1, s2) + e
  {
    ShiftByTick(r1, r2, s1, s2, e);
    QuotientMonotoneBoth(m1, m2, n1, n2, r1 + e, r2 + e, s1 - e, s2 - e);
    ShiftByTick(r1, r2, s1, s2, -e);
    QuotientMonotoneBoth(r1 - e, r2 - e, s1 + e, s2 + e, m1, m2, n1, n2);
  }

  ghost function Distance(x: real, y: real): real {
    if x < y then y - x else x - y
  }

  ghost function Max(x: real, y: real): real {
    if x < y then y else x
  }

  /** The same with strict bounds. */
  lemma MeasuredWithinOneTick(r1: real, r2: real, s1: real, s2: real, m1: real, m2: real, n1: real, n2: real)
    requires r1 >= 1.0 && r2 >= 1.0 && s1 >= 1.0 && s2 >= 1.0
    requires Distance(m1, r1) < 1.0 && Distance(m2, r2) < 1.0 && Distance(n1, s1) < 1.0 && Distance(n2, s2) < 1.0
    ensures m1 + m2 + n1 + n2 != 0.0
    ensures Distance(Quotient(m1, m2, n1, n2), Quotient(r1, r2, s1, s2)) < 1.0
  {
    var e := Max(Max(Distance(m1, r1), Distance(m2, r2)), Max(Distance(n1, s1), Distance(n2, s2)));
    QuantisedWithinOneTick(r1, r2, s1, s2, m1, m2, n1, n2, e);
  }

  lemma PositiveFactor(k: real, d: real)
    requires k > 0.0 && k * d > 0.0
    ensures d > 0.0
  {
    CancelFactor(0.0, d, k);
  }
}
