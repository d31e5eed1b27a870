/** `softfloat_roundPackToF32`: rounding and packing a significand with a sticky bit. */
module F32RoundPack {
  import opened Bits
  import opened Float32

  /** Significands handed to rounding: 31 bits, the leading one set. */
  const SIG_MIN := 0x4000_0000
  const SIG_MAX := 0x8000_0000

  function Increment(mode: Mode, negative: bool): nat {
    if mode == F.NearEven || mode == F.NearMaxMag then 0x40 else if Outward(mode, negative) then 0x7F else 0
  }

  /** Adding the increment, shifting the low seven bits out, and clearing the last bit of a tie. */
  function RoundSig(sig: nat, mode: Mode, negative: bool): nat {
    var s := (sig + Increment(mode, negative)) / 128;
    if sig % 128 == 0x40 && mode == F.NearEven then s - s % 2 else s
  }

  /** What that computes, by the low bits. */
  function ByLowBits(lo: nat, low: nat, mode: Mode, negative: bool): nat {
    if low == 0 then lo
    else if mode == F.NearEven then (if low < 64 then lo else if low > 64 then lo + 1 else lo + lo % 2)
    else if mode == F.NearMaxMag then (if low < 64 then lo else lo + 1)
    else if Outward(mode, negative) then lo + 1 else lo
  }

  lemma RoundSigByLowBits(sig: nat, mode: Mode, negative: bool)
    ensures RoundSig(sig, mode, negative) == ByLowBits(sig / 128, sig % 128, mode, negative)
  {
    var lo, low := sig / 128, sig % 128;
    assert sig == 128 * lo + low;
    var inc := Increment(mode, negative);
    Cell128(sig + inc, lo, low + inc);
  }

  lemma Cell128(x: int, q: int, r: int)
    requires x == 128 * q + r && 0 <= r < 256
    ensures x / 128 == if r < 128 then q else q + 1
  {}

  /** The mode's choice between a pattern and the next one follows the low bits. */
  lemma ChooseByLowBits(p: nat, lo: nat, low: nat, num: int, den: int, mode: Mode, negative: bool)
    requires low < 128 && p % 2 == lo % 2
    requires low == 0 <==> Exact(p, num, den)
    requires low < 64 <==> 2 * num < (Mag(p) + Mag(p + 1)) * den
    requires low == 64 <==> 2 * num == (Mag(p) + Mag(p + 1)) * den
    ensures Choose(p, num, den, mode, negative) == p - lo + ByLowBits(lo, low, mode, negative)
  {}

  // ----- Normal results -----

  lemma CompareUp(m: int, n: int, d: int, exp: nat)
    ensures Scale(m, exp) * d <= Scale(n, exp) <==> m * d <= n
    ensures Scale(m, exp) * d == Scale(n, exp) <==> m * d == n
  {
    ScaleTimes(d, m, exp);
    ScaleOrder(n, d * m, exp);
    assert d * m == m * d && d * Scale(m, exp) == Scale(m, exp) * d;
  }

  lemma LowBitsUnit(sig: int, n: int, d: int, den: int)
    requires d > 0 && den == 128 * d && StandsFor(sig, n, d)
    ensures
      var lo, low := sig / 128, sig % 128;
      && lo * den <= n < (lo + 1) * den
      && (low == 0 <==> lo * den == n)
      && (low < 64 <==> 2 * n < (2 * lo + 1) * den)
      && (low == 64 <==> 2 * n == (2 * lo + 1) * den)
  {
    LowBits(sig, n, d);
  }

  /** Comparisons of a pattern, the next one and their middle with the exact magnitude, at exponent `exp`. */
  lemma NormalCompare(p: nat, exp: nat, sig: nat, n: int, d: int, den: int)
    requires SIG_MIN <= sig < SIG_MAX && d > 0 && StandsFor(sig, n, d) && den == 128 * d
    requires p == HIDDEN * exp + sig / 128
    ensures
      var low, num := sig % 128, Scale(n, exp);
      && Mag(p) * den <= num < Mag(p + 1) * den
      && (low == 0 <==> Exact(p, num, den))
      && (low < 64 <==> 2 * num < (Mag(p) + Mag(p + 1)) * den)
      && (low == 64 <==> 2 * num == (Mag(p) + Mag(p + 1)) * den)
  {
    var lo := sig / 128;
    LowBitsUnit(sig, n, d, den);
    MagOf(p, exp, lo);
    MagOf(p + 1, exp, lo + 1);
    CompareUp(lo, n, den, exp);
    CompareUp(lo + 1, n, den, exp);
    CompareUp(2 * lo + 1, 2 * n, den, exp);
    ScaleDouble(n, exp);
    ScaleAdd(lo, lo + 1, exp);
    assert Mag(p) + Mag(p + 1) == Scale(2 * lo + 1, exp);
  }

  const TOP: nat := 0xFD

  /** A normal result is below the overflow threshold up to the top exponent and above it from the next one on. */
  lemma NormalRange(exp: nat, n: int, d: int)
    requires d > 0 && SIG_MIN * d <= n < SIG_MAX * d
    ensures Mag(INF) * (128 * d) <= Scale(n, exp) <==> exp > TOP
    ensures Scale(n, exp) >= HIDDEN * (128 * d)
  {
    MagOf(INF, TOP, 2 * HIDDEN);
    var top := 2 * HIDDEN;
    var den := 128 * d;
    assert top * den == SIG_MAX * d && HIDDEN * den == SIG_MIN * d;
    if exp > TOP {
      ScaleScale(n, exp - TOP, TOP);
      AtLeastDouble(n, exp - TOP);
      CompareUp(top, Scale(n, exp - TOP), den, TOP);
    } else {
      ScaleScale(top, exp, TOP - exp);
      Grows(top, TOP - exp);
      ScaleScale(top, TOP - exp, exp);
      LessTimes(top, Scale(top, TOP - exp), den);
      CompareUp(Scale(top, TOP - exp), n, den, exp);
    }
    Grows(n, exp);
  }

  lemma {:induction false} Grows(x: int, k: nat)
    requires x >= 0
    ensures Scale(x, k) >= x
  {
    if k == 0 {
    } else {
      Grows(x, k - 1);
    }
  }

  lemma AtLeastDouble(x: int, k: nat)
    requires x >= 0 && k > 0
    ensures Scale(x, k) >= 2 * x
  {
    Grows(x, k - 1);
  }

  // ----- Subnormal results -----

  /** The same comparisons when the significand has been shifted below the smallest normal exponent. */
  lemma SubnormalCompare(sig: nat, n: int, d: int)
    requires sig < SIG_MIN && d > 0 && StandsFor(sig, n, d)
    ensures
      var lo, low := sig / 128, sig % 128;
      var den := 128 * d;
      && Mag(lo) * den <= n < Mag(lo + 1) * den && n < HIDDEN * den && n < Mag(INF) * den
      && (low == 0 <==> Exact(lo, n, den))
      && (low < 64 <==> 2 * n < (Mag(lo) + Mag(lo + 1)) * den)
      && (low == 64 <==> 2 * n == (Mag(lo) + Mag(lo + 1)) * den)
  {
    var lo := sig / 128;
    var den := 128 * d;
    LowBits(sig, n, d);
    assert Mag(lo) == lo;
    assert Mag(lo + 1) == lo + 1 by { if lo + 1 == HIDDEN { MagOf(HIDDEN, 0, HIDDEN); } }
    LessTimes(lo + 1, HIDDEN, den);
    MagOf(INF, TOP, 2 * HIDDEN);
    Grows(2 * HIDDEN, TOP);
    LessTimes(HIDDEN, Mag(INF), den);
    assert lo + (lo + 1) == 2 * lo + 1;
  }

  // ----- The exact magnitude behind a triple -----

  /** `n / d` is the exact significand; at exponent `exp` it weighs 2^(exp-7) units of 2^-149. */
  ghost function Num(n: int, exp: int): int { if exp >= 0 then Scale(n, exp) else n }
  ghost function Den(d: int, exp: int): int { if exp >= 0 then 128 * d else 128 * Scale(d, -exp) }

  lemma NormalRounds(exp: nat, sig: nat, n: int, d: int, mode: Mode, negative: bool)
    requires exp <= TOP && SIG_MIN <= sig < SIG_MAX && d > 0 && SIG_MIN * d <= n < SIG_MAX * d && StandsFor(sig, n, d)
    ensures
      var p := HIDDEN * exp + RoundSig(sig, mode, negative);
      Rounds(p, Flags(false, false, p == INF, false, sig % 128 != 0), Num(n, exp), Den(d, exp), mode, negative)
  {
    var lo, low := sig / 128, sig % 128;
    var q := HIDDEN * exp + lo;
    var num, den := Scale(n, exp), 128 * d;
    NormalCompare(q, exp, sig, n, d, den);
    NormalRange(exp, n, d);
    RoundSigByLowBits(sig, mode, negative);
    assert q % 2 == lo % 2 by { Even(q, lo, 0x40_0000 * exp); }
    ChooseByLowBits(q, lo, low, num, den, mode, negative);
    var p := HIDDEN * exp + RoundSig(sig, mode, negative);
    assert Floor(q, num, den);
    assert RoundsFrom(q, p, Flags(false, false, p == INF, false, low != 0), num, den, mode, negative);
  }

  lemma OverflowRounds(exp: nat, n: int, d: int, mode: Mode, negative: bool)
    requires exp > TOP && d > 0 && SIG_MIN * d <= n < SIG_MAX * d
    ensures
      var p := if Increment(mode, negative) == 0 then LARGEST else INF;
      Rounds(p, Flags(false, false, true, false, true), Num(n, exp), Den(d, exp), mode, negative)
  {
    var num, den := Scale(n, exp), 128 * d;
    NormalRange(exp, n, d);
    var top := 2 * HIDDEN;
    MagOf(INF, TOP, top);
    MagOf(LARGEST, TOP, top - 1);
    ScaleOrder(top - 1, top, TOP);
    LessTimes(Mag(LARGEST), Mag(INF), den);
    assert (Mag(LARGEST) + Mag(INF)) * den == Mag(LARGEST) * den + Mag(INF) * den;
    assert Floor(LARGEST, num, den);
    var p := if Increment(mode, negative) == 0 then LARGEST else INF;
    assert RoundsFrom(LARGEST, p, Flags(false, false, true, false, true), num, den, mode, negative);
  }

  lemma SubnormalRounds(exp: int, sig: nat, n: int, d: int, mode: Mode, negative: bool)
    requires exp < 0 && sig < SIG_MIN && Scale(d, -exp) > 0 && StandsFor(sig, n, Scale(d, -exp))
    ensures Rounds(RoundSig(sig, mode, negative), Flags(false, false, false, sig % 128 != 0, sig % 128 != 0),
                   Num(n, exp), Den(d, exp), mode, negative)
  {
    var lo, low := sig / 128, sig % 128;
    var den := 128 * Scale(d, -exp);
    SubnormalCompare(sig, n, Scale(d, -exp));
    RoundSigByLowBits(sig, mode, negative);
    ChooseByLowBits(lo, lo, low, n, den, mode, negative);
    assert Floor(lo, n, den);
    assert RoundsFrom(lo, RoundSig(sig, mode, negative), Flags(false, false, false, low != 0, low != 0), n, den,
                      mode, negative);
  }

  // ----- The function -----

  function SetLowBit(q: nat, sticky: bool): nat { if sticky && q % 2 == 0 then q + 1 else q }

  /** `softfloat_shiftRightJam32`. */
  function ShiftRightJam32(a: nat, dist: nat): nat {
    NonNegative(a, dist);
    if dist < 31 then SetLowBit(Shr(a, dist), Low(a, dist) != 0) else if a != 0 then 1 else 0
  }

  const THIRTY_ONE: nat := 31

  lemma JamIsCut(a: nat, dist: nat)
    requires a < SIG_MAX && dist > 0
    ensures Shr(a, dist) >= 0 && ShiftRightJam32(a, dist) == SetLowBit(Shr(a, dist), Low(a, dist) != 0)
    ensures ShiftRightJam32(a, dist) < SIG_MIN
  {
    NonNegative(a, dist);
    if dist >= THIRTY_ONE {
      ScaleWord(1);
      assert Scale(1, WORD_BITS) == 2 * Scale(1, THIRTY_ONE);
      ScaleScale(1, THIRTY_ONE, dist - THIRTY_ONE);
      Grows(Scale(1, THIRTY_ONE), dist - THIRTY_ONE);
      ShrOfSmall(a, dist);
    } else {
      assert Shr(a, 1) == a / 2;
      ShrShr(a, 1, dist - 1);
      Shrinks(a / 2, dist - 1);
    }
  }

  lemma {:induction false} Shrinks(x: nat, k: nat)
    ensures 0 <= Shr(x, k) <= x
  {
    if k == 0 {
    } else {
      Shrinks(x, k - 1);
    }
  }

  /** `packToF32UI`. */
  function Pack(negative: bool, exp: nat, sig: nat): nat { (if negative then SIGN else 0) + HIDDEN * exp + sig }

  /** At the top exponent a carry out of the significand overflows. */
  lemma TopCarries(sig: nat, n: int, d: int, mode: Mode, negative: bool)
    requires SIG_MIN <= sig < SIG_MAX <= sig + Increment(mode, negative)
    requires d > 0 && SIG_MIN * d <= n < SIG_MAX * d && StandsFor(sig, n, d)
    ensures Rounds(INF, Flags(false, false, true, false, true), Num(n, TOP), Den(d, TOP), mode, negative)
  {
    NormalRounds(TOP, sig, n, d, mode, negative);
    RoundSigByLowBits(sig, mode, negative);
    assert sig / 128 == 2 * HIDDEN - 1 && sig % 128 != 0;
  }

  /** Otherwise the pattern stays finite. */
  lemma StaysFinite(exp: nat, sig: nat, mode: Mode, negative: bool)
    requires exp <= TOP && SIG_MIN <= sig < SIG_MAX && (exp == TOP ==> sig + Increment(mode, negative) < SIG_MAX)
    ensures 0 < RoundSig(sig, mode, negative) && HIDDEN * exp + RoundSig(sig, mode, negative) < INF
  {
    RoundSigByLowBits(sig, mode, negative);
  }

  /** The end of the function: add the increment, drop the low bits, clear a tie, pack. */
  method PackTail(negative: bool, exp0: nat, sig0: nat, roundIncrement: nat, mode: Mode, tiny: bool)
    returns (ui: nat, flags: Flags)
    requires roundIncrement == Increment(mode, negative)
    ensures var r := RoundSig(sig0, mode, negative); ui == Pack(negative, if r == 0 then 0 else exp0, r)
    ensures flags == Flags(false, false, false, tiny && sig0 % 128 != 0, sig0 % 128 != 0)
  {
    var exp, sig := exp0, sig0;
    flags := Flags(false, false, false, false, false);
    var roundBits := sig % 128;
    if tiny && roundBits != 0 { flags := flags.(underflow := true); }
    sig := (sig + roundIncrement) / 128;
    if roundBits != 0 { flags := flags.(inexact := true); }
    if roundBits == 0x40 && mode == F.NearEven { sig := sig - sig % 2; }
    if sig == 0 { exp := 0; }
    ui := Pack(negative, exp, sig);
  }

  /** `ui` is the pattern, with its sign, that the standard prescribes. */
  ghost predicate Correct(ui: nat, flags: Flags, num: int, den: int, mode: Mode, negative: bool) {
    Pack(negative, 0, 0) <= ui <= Pack(negative, 0, INF)
    && Rounds(ui - Pack(negative, 0, 0), flags, num, den, mode, negative)
  }

  lemma SubnormalBranch(exp: int, sig: nat, n: int, d: int, mode: Mode, negative: bool, shifted: nat)
    requires exp < 0 && SIG_MIN <= sig < SIG_MAX && d > 0 && StandsFor(sig, n, d)
    requires shifted == ShiftRightJam32(sig, -exp)
    ensures Correct(Pack(negative, 0, RoundSig(shifted, mode, negative)),
                    Flags(false, false, false, shifted % 128 != 0, shifted % 128 != 0), Num(n, exp), Den(d, exp),
                    mode, negative)
  {
    JamIsCut(sig, -exp);
    ScaleOrder(0, d, -exp);
    ScaleZero(-exp);
    JamStands(sig, n, d, -exp, shifted);
    SubnormalRounds(exp, shifted, n, d, mode, negative);
    RoundSigByLowBits(shifted, mode, negative);
  }

  lemma NormalBranch(exp: nat, sig: nat, n: int, d: int, mode: Mode, negative: bool)
    requires exp <= TOP && SIG_MIN <= sig < SIG_MAX && d > 0 && SIG_MIN * d <= n < SIG_MAX * d && StandsFor(sig, n, d)
    requires exp == TOP ==> sig + Increment(mode, negative) < SIG_MAX
    ensures var r := RoundSig(sig, mode, negative);
            && r > 0
            && Correct(Pack(negative, exp, r), Flags(false, false, false, false, sig % 128 != 0), Num(n, exp),
                       Den(d, exp), mode, negative)
  {
    NormalRounds(exp, sig, n, d, mode, negative);
    StaysFinite(exp, sig, mode, negative);
  }

  lemma OverflowBranch(exp: nat, sig: nat, n: int, d: int, mode: Mode, negative: bool)
    requires SIG_MIN <= sig < SIG_MAX && d > 0 && SIG_MIN * d <= n < SIG_MAX * d && StandsFor(sig, n, d)
    requires exp > TOP || (exp == TOP && sig + Increment(mode, negative) >= SIG_MAX)
    ensures var p := if Increment(mode, negative) == 0 then LARGEST else INF;
            Correct(Pack(negative, 0, p), Flags(false, false, true, false, true), Num(n, exp), Den(d, exp),
                    mode, negative)
  {
    if exp > TOP { OverflowRounds(exp, n, d, mode, negative); } else { TopCarries(sig, n, d, mode, negative); }
  }

  /**
   `softfloat_roundPackToF32`.  The result and the flags are those of the exact magnitude
   `n / d * 2^(exp-7)` units, for every significand that stands for `n / d`.  Tininess is
   detected before rounding, the library's default.
   */
  method RoundPack(negative: bool, exp: int, sig: nat, mode: Mode, ghost n: int, ghost d: int)
    returns (ui: nat, flags: Flags)
    requires SIG_MIN <= sig < SIG_MAX && d > 0 && SIG_MIN * d <= n < SIG_MAX * d && StandsFor(sig, n, d)
    ensures Correct(ui, flags, Num(n, exp), Den(d, exp), mode, negative)
  {
    var roundIncrement := 0x40;
    if mode != F.NearEven && mode != F.NearMaxMag {
      roundIncrement := if mode == (if negative then F.Min else F.Max) then 0x7F else 0;
    }
    if exp < 0 {
      var shifted := ShiftRightJam32(sig, -exp);
      SubnormalBranch(exp, sig, n, d, mode, negative, shifted);
      ui, flags := PackTail(negative, 0, shifted, roundIncrement, mode, true);
    } else if 0xFD < exp || (exp == 0xFD && SIG_MAX <= sig + roundIncrement) {
      OverflowBranch(exp, sig, n, d, mode, negative);
      flags := Flags(false, false, true, false, true);
      ui := Pack(negative, 0xFF, 0) - if roundIncrement == 0 then 1 else 0;
    } else {
      NormalBranch(exp, sig, n, d, mode, negative);
      ui, flags := PackTail(negative, exp, sig, roundIncrement, mode, false);
    }
  }
}
