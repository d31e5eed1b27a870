/**
 Ordered comparisons on 32-bit and 128-bit patterns (sections 5.6.1 and 5.11 of IEEE 754-2008)
 against the order of the extended reals that the patterns denote.
 */
module FloatCompare {
  import opened Bits
  import opened Float32
  import A = F32Arith
  import Q = Float128
  import P = F32RoundPack

  datatype Answer = Answer(holds: bool, invalid: bool)

  // ----- 32 bits -----

  /** The denoted value in units of 2^-149; infinity is placed above every finite magnitude. */
  ghost function Value32(ui: nat): int {
    if A.Sign(ui) then -Mag(A.Bare(ui)) else Mag(A.Bare(ui))
  }

  predicate BothZero(a: nat, b: nat) { A.Bare(a) == 0 && A.Bare(b) == 0 }

  /** `f32_lt`. */
  function Lt32(a: nat, b: nat): Answer {
    if A.IsNaN(a) || A.IsNaN(b) then Answer(false, true)
    else
      var signA, signB := A.Sign(a), A.Sign(b);
      Answer(if signA != signB then signA && !BothZero(a, b) else a != b && signA != (a < b), false)
  }

  /** `f32_le`. */
  function Le32(a: nat, b: nat): Answer {
    if A.IsNaN(a) || A.IsNaN(b) then Answer(false, true)
    else
      var signA, signB := A.Sign(a), A.Sign(b);
      Answer(if signA != signB then signA || BothZero(a, b) else a == b || signA != (a < b), false)
  }

  /** `f32_eq`. */
  function Eq32(a: nat, b: nat): Answer {
    if A.IsNaN(a) || A.IsNaN(b) then Answer(false, A.IsSignaling(a) || A.IsSignaling(b))
    else Answer(a == b || BothZero(a, b), false)
  }

  lemma MagOrder(p: nat, q: nat)
    ensures p < q <==> Mag(p) < Mag(q)
    ensures p == q <==> Mag(p) == Mag(q)
    ensures Mag(p) >= 0 && (Mag(p) == 0 <==> p == 0)
  {
    if p < q {
      MagMonotone(p + 1, q);
      MagIncreases(p);
    } else if q < p {
      MagMonotone(q + 1, p);
      MagIncreases(q);
    }
    MagMonotone(0, p);
    if p > 0 {
      MagIncreases(0);
      MagMonotone(1, p);
    }
  }

  /** On numbers the three predicates decide the order of the denoted values and raise nothing. */
  lemma Compare32(a: nat, b: nat)
    requires a < 2 * SIGN && b < 2 * SIGN && !A.IsNaN(a) && !A.IsNaN(b)
    ensures Lt32(a, b) == Answer(Value32(a) < Value32(b), false)
    ensures Le32(a, b) == Answer(Value32(a) <= Value32(b), false)
    ensures Eq32(a, b) == Answer(Value32(a) == Value32(b), false)
  {
    MagOrder(A.Bare(a), A.Bare(b));
    MagOrder(A.Bare(b), A.Bare(a));
  }

  /**
   A NaN compares with nothing, on either side: less and less-or-equal always raise "invalid", equality
   only for a signaling NaN, whose fraction is below 2^22.
   */
  lemma Unordered32(negative: bool, frac: nat, b: nat)
    requires 0 < frac < HIDDEN && b < 2 * SIGN
    ensures var (nan, signals) := (P.Pack(negative, 0xFF, frac), frac < 0x40_0000 || A.IsSignaling(b));
            && Lt32(nan, b) == Lt32(b, nan) == Le32(nan, b) == Le32(b, nan) == Answer(false, true)
            && Eq32(nan, b) == Eq32(b, nan) == Answer(false, signals)
  {
    A.NaNPatterns(negative, frac);
  }

  /** So exactly one of less, equal and greater holds, and "less or equal" is their union. */
  lemma Trichotomy32(a: nat, b: nat)
    requires a < 2 * SIGN && b < 2 * SIGN && !A.IsNaN(a) && !A.IsNaN(b)
    ensures var (lt, eq, gt) := (Lt32(a, b).holds, Eq32(a, b).holds, Lt32(b, a).holds);
            (lt || eq || gt) && !(lt && eq) && !(lt && gt) && !(eq && gt) && (Le32(a, b).holds <==> lt || eq)
  {
    Compare32(a, b);
    Compare32(b, a);
  }

  // ----- 128 bits -----

  type Word = Q.Word
  const TWO112 := Q.TWO112
  const TWO127 := 0x8000_0000_0000_0000_0000_0000_0000_0000

  /** The magnitude of a 128-bit pattern without sign, in units of 2^-16494. */
  ghost function Mag128(p: int): int
    requires p >= 0
  {
    if p < TWO112 then p else Scale(TWO112 + p % TWO112, p / TWO112 - 1)
  }

  lemma Mag128Of(p: int, exp: nat, f: int)
    requires TWO112 <= f <= 2 * TWO112 && p == TWO112 * exp + f
    ensures Mag128(p) == Scale(f, exp)
  {
    if f < 2 * TWO112 {
      assert p / TWO112 == exp + 1 && p % TWO112 == f - TWO112;
    } else {
      assert p / TWO112 == exp + 2 && p % TWO112 == 0;
      ScaleDouble(TWO112, exp);
      assert Scale(TWO112, exp + 1) == 2 * Scale(TWO112, exp);
    }
  }

  lemma Mag128Increases(p: int)
    requires p >= 0
    ensures Mag128(p) < Mag128(p + 1)
  {
    if p < TWO112 {
      if p + 1 == TWO112 { Mag128Of(TWO112, 0, TWO112); }
    } else {
      var exp, f := p / TWO112 - 1, TWO112 + p % TWO112;
      Mag128Of(p, exp, f);
      Mag128Of(p + 1, exp, f + 1);
      ScaleOrder(f, f + 1, exp);
    }
  }

  lemma {:induction false} Mag128Grows(p: int, q: int)
    requires 0 <= p <= q
    ensures Mag128(p) + (q - p) <= Mag128(q)
    decreases q - p
  {
    if p >= q {
    } else {
      Mag128Grows(p, q - 1);
      Mag128Increases(q - 1);
    }
  }

  lemma Mag128Order(p: int, q: int)
    requires p >= 0 && q >= 0
    ensures p < q <==> Mag128(p) < Mag128(q)
    ensures p == q <==> Mag128(p) == Mag128(q)
    ensures Mag128(p) >= p
  {
    if p < q { Mag128Grows(p, q); } else { Mag128Grows(q, p); }
    Mag128Grows(0, p);
  }

  /** The pattern without its sign. */
  ghost function Bare128(w: seq<Word>): int
    requires |w| == 4
  {
    if Q.Negative(w) then Q.Val(w) - TWO127 else Q.Val(w)
  }

  ghost function Value128(w: seq<Word>): int
    requires |w| == 4
  {
    BareNonNegative(w);
    if Q.Negative(w) then -Mag128(Bare128(w)) else Mag128(Bare128(w))
  }

  lemma BareNonNegative(w: seq<Word>)
    requires |w| == 4
    ensures Bare128(w) >= 0
    ensures Bare128(w) == 0 <==> w[3] % 0x8000_0000 == 0 && Q.LowWordsZero(w)
  {
    Q.ValFour(w);
  }

  /** `softfloat_compare128M`: words from the most significant down. */
  method Compare128(a: seq<Word>, b: seq<Word>) returns (r: int)
    requires |a| == 4 && |b| == 4
    ensures r < 0 <==> Q.Val(a) < Q.Val(b)
    ensures r == 0 <==> Q.Val(a) == Q.Val(b)
  {
    Q.ValFour(a);
    Q.ValFour(b);
    var index := 3;
    while true
      invariant 0 <= index <= 3 && forall k :: index < k < 4 ==> a[k] == b[k]
      decreases index
    {
      if a[index] != b[index] {
        HighWordDecides(a, b, index);
        HighWordDecides(b, a, index);
        return if a[index] < b[index] then -1 else 1;
      }
      if index == 0 { break; }
      index := index - 1;
    }
    r := 0;
  }

  lemma HighWordDecides(a: seq<Word>, b: seq<Word>, i: nat)
    requires |a| == 4 && |b| == 4 && i < 4 && forall k :: i < k < 4 ==> a[k] == b[k]
    ensures a[i] < b[i] ==> Q.Val(a) < Q.Val(b)
  {
    Q.ValFour(a);
    Q.ValFour(b);
  }

  /** The common setting of the two orderings: signs differ, or the patterns decide. */
  lemma Order128(a: seq<Word>, b: seq<Word>)
    requires |a| == 4 && |b| == 4
    ensures Q.Negative(a) && !Q.Negative(b) ==>
              Value128(a) <= Value128(b) && (Value128(a) == Value128(b) <==> Bare128(a) == 0 && Bare128(b) == 0)
    ensures Q.Negative(a) == Q.Negative(b) ==>
              (Value128(a) < Value128(b) <==> if Q.Negative(a) then Q.Val(b) < Q.Val(a) else Q.Val(a) < Q.Val(b))
              && (Value128(a) == Value128(b) <==> Q.Val(a) == Q.Val(b))
  {
    BareNonNegative(a);
    BareNonNegative(b);
    Mag128Order(Bare128(a), Bare128(b));
    Mag128Order(Bare128(b), Bare128(a));
  }

  /** `f128M_lt`. */
  method Lt128(a: seq<Word>, b: seq<Word>) returns (r: Answer)
    requires |a| == 4 && |b| == 4
    ensures Q.IsNaN(a) || Q.IsNaN(b) ==> r == Answer(false, true)
    ensures !Q.IsNaN(a) && !Q.IsNaN(b) ==> r == Answer(Value128(a) < Value128(b), false)
  {
    if Q.IsNaN(a) || Q.IsNaN(b) { return Answer(false, true); }
    Order128(a, b);
    Order128(b, a);
    BareNonNegative(a);
    BareNonNegative(b);
    if Q.Negative(a) != Q.Negative(b) {
      if Q.Negative(b) { return Answer(false, false); }
      if a[3] % 0x8000_0000 != 0 || b[3] % 0x8000_0000 != 0 { return Answer(true, false); }
      if a[2] != 0 || b[2] != 0 { return Answer(true, false); }
      if a[1] != 0 || b[1] != 0 { return Answer(true, false); }
      return Answer(a[0] != 0 || b[0] != 0, false);
    }
    var x, y := a, b;
    if Q.Negative(a) { x, y := b, a; }
    var c := Compare128(x, y);
    r := Answer(c < 0, false);
  }

  /** `f128M_le`. */
  method Le128(a: seq<Word>, b: seq<Word>) returns (r: Answer)
    requires |a| == 4 && |b| == 4
    ensures Q.IsNaN(a) || Q.IsNaN(b) ==> r == Answer(false, true)
    ensures !Q.IsNaN(a) && !Q.IsNaN(b) ==> r == Answer(Value128(a) <= Value128(b), false)
  {
    if Q.IsNaN(a) || Q.IsNaN(b) { return Answer(false, true); }
    Order128(a, b);
    Order128(b, a);
    BareNonNegative(a);
    BareNonNegative(b);
    if Q.Negative(a) != Q.Negative(b) {
      if Q.Negative(a) { return Answer(true, false); }
      if a[3] % 0x8000_0000 != 0 || b[3] % 0x8000_0000 != 0 { return Answer(false, false); }
      if a[2] != 0 || b[2] != 0 { return Answer(false, false); }
      if a[1] != 0 || b[1] != 0 { return Answer(false, false); }
      return Answer(a[0] == 0 && b[0] == 0, false);
    }
    var x, y := a, b;
    if Q.Negative(a) { x, y := b, a; }
    var c := Compare128(x, y);
    r := Answer(c <= 0, false);
  }

  /** When two patterns denote the same value. */
  lemma Equal128(a: seq<Word>, b: seq<Word>)
    requires |a| == 4 && |b| == 4
    ensures Value128(a) == Value128(b) <==> a == b || (Bare128(a) == 0 && Bare128(b) == 0)
  {
    Order128(a, b);
    Order128(b, a);
    if Q.Val(a) == Q.Val(b) { SamePattern(a, b); }
    BareNonNegative(a);
    BareNonNegative(b);
    Q.ValFour(a);
    Q.ValFour(b);
  }

  lemma SamePattern(a: seq<Word>, b: seq<Word>)
    requires |a| == 4 && |b| == 4 && Q.Val(a) == Q.Val(b)
    ensures a == b
  {
    EqualAbove(a, b, 3);
    EqualAbove(a, b, 2);
    EqualAbove(a, b, 1);
    EqualAbove(a, b, 0);
  }

  lemma EqualAbove(a: seq<Word>, b: seq<Word>, i: nat)
    requires |a| == 4 && |b| == 4 && i < 4 && Q.Val(a) == Q.Val(b) && forall k :: i < k < 4 ==> a[k] == b[k]
    ensures a[i] == b[i]
  {
    HighWordDecides(a, b, i);
    HighWordDecides(b, a, i);
  }

  predicate ZeroWords(w: seq<Word>)
    requires |w| == 4
  {
    w[3] % 0x8000_0000 == 0 && Q.LowWordsZero(w)
  }

  /** Words are compared out of order, and accumulated for the case of opposite zeros. */
  method Differ(a: seq<Word>, b: seq<Word>) returns (differ: bool)
    requires |a| == 4 && |b| == 4
    ensures differ <==> !(a == b || (ZeroWords(a) && ZeroWords(b)))
  {
    if a[2] != b[2] { return true; }
    var oppositeZeros := false;
    if a[3] != b[3] {
      oppositeZeros := a[3] % 0x8000_0000 == 0 && b[3] % 0x8000_0000 == 0;
      if !oppositeZeros { return true; }
    }
    var mash := a[2] != 0;
    if a[1] != b[1] { return true; }
    mash := mash || a[1] != 0;
    if a[0] != b[0] { return true; }
    differ := oppositeZeros && (mash || a[0] != 0);
  }

  lemma SignalingIsNaN(w: seq<Word>)
    requires |w| == 4 && Q.IsSignaling(w)
    ensures Q.IsNaN(w)
  {
    var x := w[3];
    assert x / 0x1_0000 == x / 0x8000 / 2;
  }

  /** `f128M_eq`. */
  method Eq128(a: seq<Word>, b: seq<Word>) returns (r: Answer)
    requires |a| == 4 && |b| == 4
    ensures Q.IsNaN(a) || Q.IsNaN(b) ==> r == Answer(false, Q.IsSignaling(a) || Q.IsSignaling(b))
    ensures !Q.IsNaN(a) && !Q.IsNaN(b) ==> r == Answer(Value128(a) == Value128(b), false)
  {
    var differ := Differ(a, b);
    EqualWords(a, b);
    if !differ && !Q.IsNaN(a) && !Q.IsNaN(b) { return Answer(true, false); }
    if Q.IsSignaling(a) { SignalingIsNaN(a); }
    if Q.IsSignaling(b) { SignalingIsNaN(b); }
    r := Answer(false, Q.IsSignaling(a) || Q.IsSignaling(b));
  }

  lemma EqualWords(a: seq<Word>, b: seq<Word>)
    requires |a| == 4 && |b| == 4
    ensures Value128(a) == Value128(b) <==> a == b || (ZeroWords(a) && ZeroWords(b))
  {
    Equal128(a, b);
    BareNonNegative(a);
    BareNonNegative(b);
  }

  // ----- The same values as the format's definition -----

  const UNIT128: nat := 0x406E

  lemma SameQuotient(s: real, p: real, q: real)
    requires p > 0.0 && q > 0.0
    ensures s / p == (s * q) / (p * q)
  {
    var x := s / p;
    assert x * p == s;
    assert x * (p * q) == s * q;
  }

  /** `s / 2^p` written over a larger power. */
  lemma OverShift(s: int, p: nat, q: nat)
    ensures Q.Over(s, p) == Q.Over(Scale(s, q), p + q)
  {
    ScaleZero(p);
    ScaleZero(q);
    ScaleZero(p + q);
    A.ScaleBoth(1, 1, p, q);
    ScaleProduct(s, q);
    IntQuotient(s, Scale(1, p), Scale(1, q), Scale(s, q), Scale(1, p + q));
  }

  lemma IntQuotient(s: int, x: int, y: int, sy: int, xy: int)
    requires x > 0 && y > 0 && sy == s * y && xy == x * y && xy > 0
    ensures s as real / x as real == sy as real / xy as real
  {
    Q.IntProduct(s, y);
    Q.IntProduct(x, y);
    SameQuotient(s as real, x as real, y as real);
  }

  lemma BareFields(w: seq<Word>)
    requires |w| == 4
    ensures Bare128(w) == TWO112 * Q.Exponent(w) + Q.Fraction(w) && 0 <= Q.Fraction(w) < TWO112
  {
    Q.PatternFields(w);
    assert (Q.SignBit(w) + Q.Exponent(w)) * TWO112 == Q.SignBit(w) * TWO112 + Q.Exponent(w) * TWO112;
  }

  lemma NormalUnits(s: int, e: nat)
    requires 0 < e
    ensures e < 0x406F ==> Q.Over(s, 0x406F - e) == Q.Over(Scale(s, e - 1), UNIT128)
    ensures e >= 0x406F ==> Scale(s, e - 0x406F) as real == Q.Over(Scale(s, e - 1), UNIT128)
  {
    if e < 0x406F {
      OverShift(s, 0x406F - e, e - 1);
    } else {
      ScaleScale(s, e - 0x406F, UNIT128);
      Q.OverWhole(Scale(s, e - 0x406F), UNIT128);
    }
  }

  /** For finite patterns, the magnitudes compared above are the denoted ones in units of 2^-16494. */
  lemma MagnitudeUnits(w: seq<Word>)
    requires Q.Finite(w)
    ensures Bare128(w) >= 0 && Q.Magnitude(w) == Q.Over(Mag128(Bare128(w)), UNIT128)
  {
    BareFields(w);
    var e, f := Q.Exponent(w), Q.Fraction(w);
    if e > 0 {
      Mag128Of(Bare128(w), e - 1, TWO112 + f);
      NormalUnits(TWO112 + f, e);
    }
  }
}
