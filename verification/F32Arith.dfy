/** `f32_mul` and `f32_div`: correctly rounded products and quotients. */
module F32Arith {
  import opened Bits
  import opened Common
  import opened Float32
  import opened F32RoundPack

  predicate Sign(ui: nat) { ui >= SIGN }
  function Bare(ui: nat): nat { if ui >= SIGN then ui - SIGN else ui }
  function Exp(ui: nat): nat { Bare(ui) / HIDDEN }
  function Frac(ui: nat): nat { Bare(ui) % HIDDEN }

  predicate IsNaN(ui: nat) { Bare(ui) > INF }
  predicate IsSignaling(ui: nat) { IsNaN(ui) && Frac(ui) < 0x40_0000 }
  predicate IsFinite(ui: nat) { Bare(ui) < INF }

  const DEFAULT_NAN := 0x7FC0_0000
  const QUIET: Flags := Flags(false, false, false, false, false)

  // ----- Unpacking -----

  /** Exponent and significand with the leading bit set, for a finite nonzero magnitude. */
  ghost predicate Normalised(mag: nat, e: int, s: nat) {
    HIDDEN <= s < 2 * HIDDEN && -22 <= e <= 254 && Scale(Mag(mag), 24) == Scale(s, e + 23)
  }

  /** `softfloat_normSubnormalF32Sig`; the leading zeros are counted by a loop. */
  method NormSubnormal(sig: nat) returns (e: int, s: nat)
    requires 0 < sig < HIDDEN
    ensures Normalised(sig, e, s)
  {
    var shift := 0;
    s := sig;
    while s < HIDDEN
      invariant s == Scale(sig, shift) && s < 2 * HIDDEN && shift <= 23 && Scale(1, shift) <= s
      decreases HIDDEN - s
    {
      TwentyThree(shift);
      ScaleOrder(1, sig, shift);
      shift := shift + 1;
      s := 2 * s;
    }
    e := 1 - shift;
    ScaleScale(sig, shift, 24 - shift);
  }

  /** 2^shift stays below 2^23 only for shifts below 23. */
  lemma TwentyThree(shift: nat)
    ensures shift >= 23 ==> Scale(1, shift) >= HIDDEN
  {
    if shift >= 23 {
      var k: nat := 23;
      Scale16(1);
      Scale4(Scale(1, 16));
      ScaleScale(1, 16, 4);
      assert Scale(1, 21) == 2 * Scale(1, 20);
      assert Scale(1, 22) == 2 * Scale(1, 21);
      assert Scale(1, 23) == 2 * Scale(1, 22);
      ScaleScale(1, k, shift - k);
      Grows(Scale(1, k), shift - k);
    }
  }

  /** The unpacking that both operations do. */
  method Unpack(exp: nat, frac: nat, ghost mag: nat) returns (e: int, s: nat)
    requires exp < 0xFF && frac < HIDDEN && mag == HIDDEN * exp + frac && mag > 0
    ensures Normalised(mag, e, s)
  {
    if exp == 0 {
      e, s := NormSubnormal(frac);
    } else {
      e, s := exp, frac + HIDDEN;
      MagOf(mag, exp - 1, s);
      ScaleScale(s, exp - 1, 24);
    }
  }

  // ----- From a triple to the operands -----

  /** Every way of writing the exact magnitude of a triple with a larger denominator. */
  lemma Canonical(p: nat, flags: Flags, n: int, d: int, exp: int, k: nat, mode: Mode, negative: bool)
    requires exp + k >= 0
    ensures Rounds(p, flags, Num(n, exp), Den(d, exp), mode, negative)
            <==> Rounds(p, flags, Scale(n, exp + k), Scale(d, 7 + k), mode, negative)
  {
    ScaleSeven(d);
    if exp >= 0 {
      RoundsScaledIff(p, flags, Num(n, exp), Den(d, exp), mode, negative, k);
      ScaleScale(n, exp, k);
      ScaleScale(d, 7, k);
    } else {
      var j := -exp;
      RoundsScaledIff(p, flags, n, 128 * Scale(d, j), mode, negative, exp + k);
      ScaleSeven(Scale(d, j));
      ScaleScale(d, j, 7);
      ScaleScale(d, j + 7, exp + k);
    }
  }

  lemma ScaleSeven(x: int)
    ensures Scale(x, 7) == 128 * x
  {
    Scale4(x);
    assert Scale(x, 5) == 2 * Scale(x, 4);
    assert Scale(x, 6) == 2 * Scale(x, 5);
    assert Scale(x, 7) == 2 * Scale(x, 6);
  }

  lemma ScaleBoth(a: int, b: int, i: nat, j: nat)
    ensures Scale(a, i) * Scale(b, j) == Scale(a * b, i + j)
  {
    ScaleTimes(Scale(a, i), b, j);
    ScaleTimes(b, a, i);
    assert Scale(a, i) * b == b * Scale(a, i) && b * a == a * b;
    ScaleScale(a * b, i, j);
  }

  const UNIT: nat := 149

  /** The exact product, in units of 2^-149, over a power of two. */
  lemma ProductScaled(a: nat, b: nat, ea: int, sa: nat, eb: int, sb: nat)
    requires Normalised(a, ea, sa) && Normalised(b, eb, sb)
    ensures Scale(Mag(a) * Mag(b), 48) == Scale(sa * sb, ea + eb + 46)
  {
    ScaleBoth(Mag(a), Mag(b), 24, 24);
    ScaleBoth(sa, sb, ea + 23, eb + 23);
  }

  lemma ProductRounds(p: nat, flags: Flags, a: nat, b: nat, ea: int, sa: nat, eb: int, sb: nat, d: int, t: nat,
                      exp: int, mode: Mode, negative: bool)
    requires Normalised(a, ea, sa) && Normalised(b, eb, sb)
    requires t <= 17 && d == Scale(1, t) && exp == ea + eb - 144 + t
    requires Rounds(p, flags, Num(sa * sb, exp), Den(d, exp), mode, negative)
    ensures Rounds(p, flags, Mag(a) * Mag(b), Scale(1, UNIT), mode, negative)
  {
    var k := 190 - t;
    Canonical(p, flags, sa * sb, d, exp, k, mode, negative);
    ScaleScale(1, t, 7 + k);
    ProductScaled(a, b, ea, sa, eb, sb);
    ScaleScale(1, UNIT, 48);
    RoundsScaledIff(p, flags, Mag(a) * Mag(b), Scale(1, UNIT), mode, negative, 48);
  }

  lemma QuotientRounds(p: nat, flags: Flags, a: nat, b: nat, ea: int, sa: nat, eb: int, sb: nat, shift: nat, exp: int,
                       mode: Mode, negative: bool)
    requires Normalised(a, ea, sa) && Normalised(b, eb, sb)
    requires shift <= 31 && exp == ea - eb + 156 - shift
    requires Rounds(p, flags, Num(Scale(sa, shift), exp), Den(sb, exp), mode, negative)
    ensures Rounds(p, flags, Scale(Mag(a), UNIT), Mag(b), mode, negative)
  {
    var k: nat := eb + 40;
    Canonical(p, flags, Scale(sa, shift), sb, exp, k, mode, negative);
    ScaleScale(sa, shift, exp + k);
    ScaleScale(Mag(a), UNIT, 48);
    ScaleScale(Mag(a), 24, 173);
    ScaleScale(sa, ea + 23, 173);
    ScaleScale(Mag(b), 24, 24);
    ScaleScale(sb, eb + 23, 24);
    RoundsScaledIff(p, flags, Scale(Mag(a), UNIT), Mag(b), mode, negative, 48);
  }

  // ----- Significands -----

  lemma ProductBounds(sa: nat, sb: nat)
    requires HIDDEN <= sa < 2 * HIDDEN && HIDDEN <= sb < 2 * HIDDEN
    ensures 0x4000_0000_0000 <= sa * sb < 0x1_0000_0000_0000
  {
    LessTimes(HIDDEN, sa, sb);
    LessTimes(sa + 1, 2 * HIDDEN, sb);
    assert HIDDEN * sb >= 0x4000_0000_0000 && 2 * HIDDEN * sb < 0x1_0000_0000_0000;
  }

  /** The product shifted right by 17 with jamming stands for it, and its double for the double. */
  lemma ProductStands(n: nat, sig: nat)
    requires 0x4000_0000_0000 <= n < 0x1_0000_0000_0000 && sig == SetLowBit(n / 0x2_0000, n % 0x2_0000 != 0)
    ensures StandsFor(sig, n, 0x2_0000) && StandsFor(2 * sig, n, TWO16)
    ensures sig < SIG_MIN <==> n < 0x8000_0000_0000
    ensures SIG_MIN / 2 <= sig < SIG_MAX
  {
    var q, r := n / 0x2_0000, n % 0x2_0000;
    JamCell(q, r != 0, sig);
    HalfCell(q, r, n, sig);
  }

  /** Half cells: the double of the jammed value against the double of the exact one. */
  lemma HalfCell(q: nat, r: nat, n: nat, sig: nat)
    requires n == 0x2_0000 * q + r && r < 0x2_0000 && sig == SetLowBit(q, r != 0)
    ensures StandsFor(2 * sig, n, TWO16)
  {
    var (k, c) := (q / 32, q % 32);
    var b := if r < TWO16 then 0 else 1;
    Quotient16(n, 2 * q + b, r - TWO16 * b);
    assert q == 32 * k + c;
    assert q % 2 == c % 2 by { Even(q, c, 16 * k); }
    Cell64(2 * q + b, k, 2 * c + b);
    Cell64(2 * sig, k, 2 * (sig - 32 * k));
  }

  lemma Quotient16(n: int, q: int, r: int)
    requires n == TWO16 * q + r && 0 <= r < TWO16
    ensures n / TWO16 == q && n % TWO16 == r
  {}

  /** `(sigA<<7) * (sigB<<8)` shifted right by 32 is the product shifted right by 17. */
  lemma ShiftedProduct(sa: nat, sb: nat)
    ensures (sa * 128) * (sb * 256) == 0x8000 * (sa * sb)
    ensures 0x8000 * (sa * sb) / TWO32 == sa * sb / 0x2_0000
    ensures 0x8000 * (sa * sb) % TWO32 == 0x8000 * (sa * sb % 0x2_0000)
  {
    Cancel(sa * sb);
  }

  lemma Cancel(n: nat)
    ensures 0x8000 * n / TWO32 == n / 0x2_0000 && 0x8000 * n % TWO32 == 0x8000 * (n % 0x2_0000)
  {
    var q, r := n / 0x2_0000, n % 0x2_0000;
    assert 0x8000 * n == TWO32 * q + 0x8000 * r;
  }

  // ----- Multiplication -----

  /** The part of `f32_mul` for finite nonzero operands. */
  method MulFinite(negative: bool, ea: int, sa: nat, eb: int, sb: nat, mode: Mode, ghost a: nat, ghost b: nat)
    returns (ui: nat, flags: Flags)
    requires Normalised(a, ea, sa) && Normalised(b, eb, sb)
    ensures Correct(ui, flags, Mag(a) * Mag(b), Scale(1, UNIT), mode, negative)
  {
    var expZ := ea + eb - 0x7F;
    ProductBounds(sa, sb);
    ShiftedProduct(sa, sb);
    var product := (sa * 128) * (sb * 256);
    var sigZ := SetLowBit(product / TWO32, product % TWO32 != 0);
    ghost var n := sa * sb;
    ProductStands(n, sigZ);
    PowersOfTwo();
    if sigZ < SIG_MIN {
      expZ := expZ - 1;
      sigZ := 2 * sigZ;
      ui, flags := RoundPack(negative, expZ, sigZ, mode, n, TWO16);
      ProductRounds(ui - Pack(negative, 0, 0), flags, a, b, ea, sa, eb, sb, TWO16, 16, expZ, mode, negative);
    } else {
      ui, flags := RoundPack(negative, expZ, sigZ, mode, n, 0x2_0000);
      ProductRounds(ui - Pack(negative, 0, 0), flags, a, b, ea, sa, eb, sb, 0x2_0000, 17, expZ, mode, negative);
    }
  }

  lemma PowersOfTwo()
    ensures Scale(1, 16) == TWO16 && Scale(1, 17) == 0x2_0000
  {
    Scale16(1);
    assert Scale(1, 17) == 2 * Scale(1, 16);
  }

  // ----- Division -----

  lemma QuotientStands(n: nat, d: nat, q: nat, sig: nat)
    requires d > 0 && q == n / d && sig == if q % 64 == 0 && d * q != n then q + 1 else q
    ensures StandsFor(sig, n, d)
  {
    CompareFloor(q, n, d);
    assert d * q == q * d;
    var k, c := q / 64, q % 64;
    Cell64(sig, k, sig - 64 * k);
  }

  lemma QuotientBounds(sa: nat, sb: nat, n: nat)
    requires HIDDEN <= sa < 2 * HIDDEN && HIDDEN <= sb < 2 * HIDDEN
    requires n == if sa < sb then 0x8000_0000 * sa else 0x4000_0000 * sa
    ensures SIG_MIN * sb <= n < SIG_MAX * sb
  {}

  lemma ScaledSignificand(sa: nat)
    ensures Scale(sa, 31) == 0x8000_0000 * sa && Scale(sa, 30) == 0x4000_0000 * sa
  {
    ScaleWord(sa);
    assert Scale(sa, WORD_BITS) == 2 * Scale(sa, 31);
    assert Scale(sa, 31) == 2 * Scale(sa, 30);
  }

  /** The part of `f32_div` for finite nonzero operands. */
  method DivFinite(negative: bool, ea: int, sa: nat, eb: int, sb: nat, mode: Mode, ghost a: nat, ghost b: nat)
    returns (ui: nat, flags: Flags)
    requires Normalised(a, ea, sa) && Normalised(b, eb, sb)
    ensures Correct(ui, flags, Scale(Mag(a), UNIT), Mag(b), mode, negative)
  {
    var expZ := ea - eb + 0x7E;
    var sig64A;
    if sa < sb {
      expZ := expZ - 1;
      sig64A := 0x8000_0000 * sa;
    } else {
      sig64A := 0x4000_0000 * sa;
    }
    var sigZ := sig64A / sb;
    ghost var q := sigZ;
    if sigZ % 64 == 0 && sb * sigZ != sig64A {
      sigZ := sigZ + 1;
    }
    QuotientStands(sig64A, sb, q, sigZ);
    QuotientBounds(sa, sb, sig64A);
    CompareFloor(SIG_MIN, sig64A, sb);
    CompareFloor(SIG_MAX, sig64A, sb);
    ScaledSignificand(sa);
    StandsInRange(sigZ, q);
    ui, flags := RoundPack(negative, expZ, sigZ, mode, sig64A, sb);
    QuotientRounds(ui - Pack(negative, 0, 0), flags, a, b, ea, sa, eb, sb, if sa < sb then 31 else 30,
                   expZ, mode, negative);
  }

  lemma StandsInRange(sig: nat, q: nat)
    requires SIG_MIN <= q < SIG_MAX && (sig == q || (sig == q + 1 && q % 64 == 0))
    ensures SIG_MIN <= sig < SIG_MAX
  {}

  // ----- The operations -----

  /** A quiet NaN with the sign of `from` and its fraction below the quiet bit. */
  predicate Quieted(ui: nat, from: nat) {
    IsNaN(ui) && !IsSignaling(ui) && Sign(ui) == Sign(from) && Frac(ui) % 0x40_0000 == Frac(from) % 0x40_0000
  }

  /** The first signaling operand gives the result, or else the first NaN; a signaling one raises "invalid". */
  ghost predicate Propagated(a: nat, b: nat, ui: nat, flags: Flags) {
    && (IsSignaling(a) || (IsNaN(a) && !IsSignaling(b)) ==> Quieted(ui, a))
    && (!IsSignaling(a) && (IsSignaling(b) || !IsNaN(a)) ==> Quieted(ui, b))
    && flags == QUIET.(invalid := IsSignaling(a) || IsSignaling(b))
  }

  /** What the patterns of NaNs are, by sign and fraction. */
  lemma NaNPatterns(negative: bool, frac: nat)
    requires frac < HIDDEN
    ensures var ui := Pack(negative, 0xFF, frac);
            (IsNaN(ui) <==> frac != 0) && (IsSignaling(ui) <==> 0 < frac < 0x40_0000) && Sign(ui) == negative
  {}

  /** So the result is determined: every quiet NaN comes back as it is, a signaling one with the quiet bit set. */
  lemma PropagatedIs(a: nat, b: nat, ui: nat, flags: Flags)
    requires a < 2 * SIGN && b < 2 * SIGN && ui < 2 * SIGN && (IsNaN(a) || IsNaN(b)) && Propagated(a, b, ui, flags)
    ensures IsSignaling(a) ==> ui == a + 0x40_0000
    ensures !IsSignaling(a) && IsSignaling(b) ==> ui == b + 0x40_0000
    ensures !IsSignaling(a) && !IsSignaling(b) ==> ui == if IsNaN(a) then a else b
  {}

  /** `softfloat_propagateNaNF32UI`. */
  method PropagateNaN(a: nat, b: nat) returns (ui: nat, flags: Flags)
    requires IsNaN(a) || IsNaN(b)
    ensures Propagated(a, b, ui, flags)
  {
    flags := QUIET;
    if IsSignaling(a) || IsSignaling(b) {
      flags := flags.(invalid := true);
      ui := if IsSignaling(a) then a else b;
      Fields(Bare(ui) + 0x40_0000, Exp(ui), Frac(ui) + 0x40_0000);
      ui := ui + 0x40_0000;
    } else {
      ui := if IsNaN(a) then a else b;
    }
  }

  lemma SplitPattern(ui: nat)
    requires ui < 2 * SIGN
    ensures Bare(ui) == HIDDEN * Exp(ui) + Frac(ui) && Exp(ui) <= 0xFF && Frac(ui) < HIDDEN
    ensures IsNaN(ui) <==> Exp(ui) == 0xFF && Frac(ui) != 0
    ensures IsFinite(ui) <==> Exp(ui) != 0xFF
  {}

  /** `f32_mul`. */
  method Mul(a: nat, b: nat, mode: Mode) returns (ui: nat, flags: Flags)
    requires a < 2 * SIGN && b < 2 * SIGN
    ensures IsNaN(a) || IsNaN(b) ==> Propagated(a, b, ui, flags)
    ensures (Bare(a) == INF && Bare(b) == 0) || (Bare(a) == 0 && Bare(b) == INF) ==>
              ui == DEFAULT_NAN && flags == QUIET.(invalid := true)
    ensures (Bare(a) == INF && 0 < Bare(b) <= INF) || (0 < Bare(a) <= INF && Bare(b) == INF) ==>
              ui == Pack(Sign(a) != Sign(b), 0xFF, 0) && flags == QUIET
    ensures IsFinite(a) && IsFinite(b) && (Bare(a) == 0 || Bare(b) == 0) ==>
              ui == Pack(Sign(a) != Sign(b), 0, 0) && flags == QUIET
    ensures IsFinite(a) && IsFinite(b) && Bare(a) != 0 && Bare(b) != 0 ==>
              Correct(ui, flags, Mag(Bare(a)) * Mag(Bare(b)), Scale(1, UNIT), mode, Sign(a) != Sign(b))
  {
    SplitPattern(a);
    SplitPattern(b);
    var expA, sigA, expB, sigB := Exp(a), Frac(a), Exp(b), Frac(b);
    var negative := Sign(a) != Sign(b);
    if expA == 0xFF || expB == 0xFF {
      if (expA == 0xFF && sigA != 0) || (expB == 0xFF && sigB != 0) {
        ui, flags := PropagateNaN(a, b);
        return;
      }
      var other := if expA == 0xFF then Bare(b) else Bare(a);
      if other == 0 {
        return DEFAULT_NAN, QUIET.(invalid := true);
      }
      return Pack(negative, 0xFF, 0), QUIET;
    }
    if (expA == 0 && sigA == 0) || (expB == 0 && sigB == 0) {
      return Pack(negative, 0, 0), QUIET;
    }
    var ea, sa := Unpack(expA, sigA, Bare(a));
    var eb, sb := Unpack(expB, sigB, Bare(b));
    ui, flags := MulFinite(negative, ea, sa, eb, sb, mode, Bare(a), Bare(b));
  }

  /** `f32_div`. */
  method Div(a: nat, b: nat, mode: Mode) returns (ui: nat, flags: Flags)
    requires a < 2 * SIGN && b < 2 * SIGN
    ensures IsNaN(a) || IsNaN(b) ==> Propagated(a, b, ui, flags)
    ensures (Bare(a) == INF && Bare(b) == INF) || (Bare(a) == 0 && Bare(b) == 0) ==>
              ui == DEFAULT_NAN && flags == QUIET.(invalid := true)
    ensures Bare(a) == INF && IsFinite(b) ==> ui == Pack(Sign(a) != Sign(b), 0xFF, 0) && flags == QUIET
    ensures 0 < Bare(a) < INF && Bare(b) == 0 ==>
              ui == Pack(Sign(a) != Sign(b), 0xFF, 0) && flags == QUIET.(infinite := true)
    ensures (IsFinite(a) && Bare(b) == INF) || (Bare(a) == 0 && 0 < Bare(b) < INF) ==>
              ui == Pack(Sign(a) != Sign(b), 0, 0) && flags == QUIET
    ensures IsFinite(a) && IsFinite(b) && Bare(a) != 0 && Bare(b) != 0 ==>
              Correct(ui, flags, Scale(Mag(Bare(a)), UNIT), Mag(Bare(b)), mode, Sign(a) != Sign(b))
  {
    SplitPattern(a);
    SplitPattern(b);
    var expA, sigA, expB, sigB := Exp(a), Frac(a), Exp(b), Frac(b);
    var negative := Sign(a) != Sign(b);
    if (expA == 0xFF && sigA != 0) || (expB == 0xFF && sigB != 0) {
      ui, flags := PropagateNaN(a, b);
      return;
    }
    if expA == 0xFF {
      if expB == 0xFF { return DEFAULT_NAN, QUIET.(invalid := true); }
      return Pack(negative, 0xFF, 0), QUIET;
    }
    if expB == 0xFF { return Pack(negative, 0, 0), QUIET; }
    if expB == 0 && sigB == 0 {
      if expA == 0 && sigA == 0 { return DEFAULT_NAN, QUIET.(invalid := true); }
      return Pack(negative, 0xFF, 0), QUIET.(infinite := true);
    }
    if expA == 0 && sigA == 0 { return Pack(negative, 0, 0), QUIET; }
    var eb, sb := Unpack(expB, sigB, Bare(b));
    var ea, sa := Unpack(expA, sigA, Bare(a));
    ui, flags := DivFinite(negative, ea, sa, eb, sb, mode, Bare(a), Bare(b));
  }
}
