/**
 The 32-bit floating-point format and correct rounding (section 4.3 of IEEE 754-2008), for
 exact results given as a quotient of integers; and `softfloat_roundPackToF32`.
 */
module Float32 {
  import opened Bits
  import F = Float128

  type Mode = F.Mode

  const HIDDEN := 0x80_0000
  const SIGN := 0x8000_0000
  const INF := 0x7F80_0000
  const LARGEST := 0x7F7F_FFFF

  // ----- Magnitudes -----

  /** The magnitude of a pattern without sign, in units of 2^-149; the infinity pattern continues the scale. */
  ghost function Mag(p: nat): int {
    if p < HIDDEN then p else Scale(HIDDEN + p % HIDDEN, p / HIDDEN - 1)
  }

  /** Patterns follow each other inside a binade and across its end. */
  lemma MagOf(p: nat, exp: nat, f: nat)
    requires HIDDEN <= f <= 2 * HIDDEN && p == HIDDEN * exp + f
    ensures Mag(p) == Scale(f, exp)
  {
    if f < 2 * HIDDEN {
      Fields(p, exp + 1, f - HIDDEN);
    } else {
      Fields(p, exp + 2, 0);
      ScaleDouble(HIDDEN, exp);
      assert Scale(HIDDEN, exp + 1) == 2 * Scale(HIDDEN, exp);
    }
  }

  lemma Fields(p: int, q: int, r: int)
    requires p == HIDDEN * q + r && 0 <= r < HIDDEN
    ensures p / HIDDEN == q && p % HIDDEN == r
  {}

  // ----- Correct rounding of num / den, in units of 2^-149 -----

  /** `lo` is the largest finite pattern not above the exact magnitude. */
  ghost predicate Floor(lo: nat, num: int, den: int) {
    lo <= LARGEST && Mag(lo) * den <= num && (lo < LARGEST ==> num < Mag(lo + 1) * den)
  }

  ghost predicate Exact(lo: nat, num: int, den: int) { Mag(lo) * den == num }

  /** Away from zero in this mode. */
  predicate Outward(mode: Mode, negative: bool) { if negative then mode == F.Min else mode == F.Max }

  /** The neighbour that the mode selects; `lo + 1` is the next pattern, infinity included. */
  ghost function Choose(lo: nat, num: int, den: int, mode: Mode, negative: bool): nat {
    var middle := (Mag(lo) + Mag(lo + 1)) * den;
    if Exact(lo, num, den) then lo
    else if mode == F.NearEven then
      if 2 * num < middle then lo else if 2 * num > middle then lo + 1 else lo + lo % 2
    else if mode == F.NearMaxMag then if 2 * num < middle then lo else lo + 1
    else if Outward(mode, negative) then lo + 1 else lo
  }

  /** Exceptions of an operation. */
  datatype Flags = Flags(invalid: bool, infinite: bool, overflow: bool, underflow: bool, inexact: bool)

  /** The magnitude `p` and the flags are what the standard prescribes for this exact magnitude. */
  ghost predicate Rounds(p: nat, flags: Flags, num: int, den: int, mode: Mode, negative: bool) {
    exists lo :: Floor(lo, num, den) && RoundsFrom(lo, p, flags, num, den, mode, negative)
  }

  ghost predicate RoundsFrom(lo: nat, p: nat, flags: Flags, num: int, den: int, mode: Mode, negative: bool) {
    && p == Choose(lo, num, den, mode, negative)
    && !flags.invalid && !flags.infinite
    && flags.inexact == !Exact(lo, num, den)
    && flags.overflow == (p == INF || Mag(INF) * den <= num)
    && flags.underflow == (flags.inexact && num < HIDDEN * den)
  }

  /** Magnitudes grow with the pattern. */
  lemma MagIncreases(p: nat)
    ensures Mag(p) < Mag(p + 1)
  {
    if p < HIDDEN {
      if p + 1 == HIDDEN { MagOf(HIDDEN, 0, HIDDEN); }
    } else {
      var exp, f := p / HIDDEN - 1, HIDDEN + p % HIDDEN;
      MagOf(p, exp, f);
      MagOf(p + 1, exp, f + 1);
      ScaleOrder(f, f + 1, exp);
    }
  }

  lemma {:induction false} MagMonotone(p: nat, q: nat)
    requires p <= q
    ensures Mag(p) <= Mag(q)
    decreases q - p
  {
    if p >= q {
    } else {
      MagMonotone(p, q - 1);
      MagIncreases(q - 1);
    }
  }

  lemma FloorUnique(lo: nat, hi: nat, num: int, den: int)
    requires den > 0 && Floor(lo, num, den) && Floor(hi, num, den) && lo <= hi
    ensures lo == hi
  {
    if lo < hi {
      MagMonotone(lo + 1, hi);
      LessTimes(Mag(lo + 1), Mag(hi), den);
    }
  }

  /** The standard prescribes one result and one set of flags. */
  lemma RoundsUnique(p: nat, flags: Flags, p': nat, flags': Flags, num: int, den: int, mode: Mode, negative: bool)
    requires den > 0 && Rounds(p, flags, num, den, mode, negative) && Rounds(p', flags', num, den, mode, negative)
    ensures p == p' && flags == flags'
  {
    var lo :| Floor(lo, num, den) && RoundsFrom(lo, p, flags, num, den, mode, negative);
    var hi :| Floor(hi, num, den) && RoundsFrom(hi, p', flags', num, den, mode, negative);
    if lo <= hi { FloorUnique(lo, hi, num, den); } else { FloorUnique(hi, lo, num, den); }
  }

  // ----- Scaling numerator and denominator -----

  lemma {:induction false} ScaleTimes(m: int, den: int, k: nat)
    ensures m * Scale(den, k) == Scale(m * den, k)
  {
    if k == 0 {
    } else {
      ScaleTimes(m, den, k - 1);
      assert m * (2 * Scale(den, k - 1)) == 2 * (m * Scale(den, k - 1));
    }
  }

  lemma CompareShifted(m: int, num: int, den: int, k: nat)
    ensures m * den <= num <==> m * Scale(den, k) <= Scale(num, k)
    ensures m * den == num <==> m * Scale(den, k) == Scale(num, k)
  {
    ScaleTimes(m, den, k);
    ScaleOrder(m * den, num, k);
    ScaleOrder(num, m * den, k);
  }

  lemma FloorScaled(lo: nat, num: int, den: int, k: nat)
    ensures Floor(lo, num, den) <==> Floor(lo, Scale(num, k), Scale(den, k))
    ensures Exact(lo, num, den) <==> Exact(lo, Scale(num, k), Scale(den, k))
  {
    CompareShifted(Mag(lo), num, den, k);
    CompareShifted(Mag(lo + 1), num, den, k);
  }

  lemma ChooseScaled(lo: nat, num: int, den: int, mode: Mode, negative: bool, k: nat)
    ensures Choose(lo, num, den, mode, negative) == Choose(lo, Scale(num, k), Scale(den, k), mode, negative)
  {
    FloorScaled(lo, num, den, k);
    CompareShifted(Mag(lo) + Mag(lo + 1), 2 * num, den, k);
    ScaleDouble(num, k);
  }

  /** The prescription does not depend on how the quotient is written. */
  lemma RoundsFromScaled(lo: nat, p: nat, flags: Flags, num: int, den: int, mode: Mode, negative: bool, k: nat)
    ensures Floor(lo, num, den) <==> Floor(lo, Scale(num, k), Scale(den, k))
    ensures RoundsFrom(lo, p, flags, num, den, mode, negative)
            <==> RoundsFrom(lo, p, flags, Scale(num, k), Scale(den, k), mode, negative)
  {
    FloorScaled(lo, num, den, k);
    ChooseScaled(lo, num, den, mode, negative, k);
    CompareShifted(Mag(INF), num, den, k);
    CompareShifted(HIDDEN, num, den, k);
  }

  lemma RoundsScaledIff(p: nat, flags: Flags, num: int, den: int, mode: Mode, negative: bool, k: nat)
    ensures Rounds(p, flags, num, den, mode, negative)
            <==> Rounds(p, flags, Scale(num, k), Scale(den, k), mode, negative)
  {
    if Rounds(p, flags, num, den, mode, negative) {
      var lo :| Floor(lo, num, den) && RoundsFrom(lo, p, flags, num, den, mode, negative);
      RoundsFromScaled(lo, p, flags, num, den, mode, negative, k);
    }
    if Rounds(p, flags, Scale(num, k), Scale(den, k), mode, negative) {
      var lo :| && Floor(lo, Scale(num, k), Scale(den, k))
                && RoundsFrom(lo, p, flags, Scale(num, k), Scale(den, k), mode, negative);
      RoundsFromScaled(lo, p, flags, num, den, mode, negative, k);
    }
  }

  // ----- Significands with a sticky bit -----

  /**
   `sig` stands for an exact number with this integer part: both are in the same cell between
   consecutive multiples of 64, and `sig` is such a multiple exactly when the number is.
   */
  predicate Stands(sig: int, floor: int, exact: bool) {
    sig / 64 == floor / 64 && (sig % 64 == 0 <==> floor % 64 == 0 && exact)
  }

  ghost predicate StandsFor(sig: int, n: int, d: int)
    requires d > 0
  {
    Stands(sig, n / d, n % d == 0)
  }

  /** Comparing a quotient with an integer by its integer part. */
  lemma CompareFloor(m: int, n: int, d: int)
    requires d > 0
    ensures m * d <= n <==> m <= n / d
    ensures m * d == n <==> m == n / d && n % d == 0
  {
    var q, r := n / d, n % d;
    assert n == q * d + r;
    if m <= q { LessTimes(m, q, d); } else { LessTimes(q + 1, m, d); }
  }

  lemma LessTimes(a: int, b: int, d: int)
    requires d > 0 && a <= b
    ensures a * d <= b * d && (a < b ==> a * d + d <= b * d) && (a + 1) * d == a * d + d
  {
    var k := b - a;
    assert b * d == a * d + k * d;
    if k > 0 { assert k * d >= d; }
  }

  /** A multiple of 64 compares with `sig` as with the exact number. */
  lemma CompareStanding(sig: int, m: int, n: int, d: int)
    requires d > 0 && StandsFor(sig, n, d) && m % 64 == 0
    ensures m * d <= n <==> m <= sig
    ensures m * d == n <==> m == sig
  {
    CompareFloor(m, n, d);
  }

  /** What the low bits of `sig` say about the exact number in units of 128. */
  lemma LowBits(sig: int, n: int, d: int)
    requires d > 0 && StandsFor(sig, n, d)
    ensures
      var lo, low := sig / 128, sig % 128;
      && lo * (128 * d) <= n < (lo + 1) * (128 * d)
      && (low == 0 <==> lo * (128 * d) == n)
      && (low < 64 <==> 2 * n < (2 * lo + 1) * (128 * d))
      && (low == 64 <==> 2 * n == (2 * lo + 1) * (128 * d))
  {
    var lo := sig / 128;
    CompareStanding(sig, 128 * lo, n, d);
    CompareStanding(sig, 128 * lo + 64, n, d);
    CompareStanding(sig, 128 * lo + 128, n, d);
    Regroup(lo, d);
  }

  lemma Regroup(lo: int, d: int)
    ensures lo * (128 * d) == (128 * lo) * d
    ensures (lo + 1) * (128 * d) == (128 * lo + 128) * d
    ensures (2 * lo + 1) * (128 * d) == 2 * ((128 * lo + 64) * d)
  {}

  /** Shifting right with jamming keeps this relation. */
  lemma JamStands(sig: int, n: int, d: int, j: nat, jammed: int)
    requires d > 0 && StandsFor(sig, n, d) && sig >= 0 && Scale(d, j) > 0
    requires jammed == Shr(sig, j) + if Low(sig, j) != 0 && Shr(sig, j) % 2 == 0 then 1 else 0
    ensures StandsFor(jammed, n, Scale(d, j))
  {
    var floor := n / d;
    CutQuotient(n, d, j);
    CutSixtyFour(sig, j);
    CutSixtyFour(floor, j);
    JamCell(Shr(sig, j), Low(sig, j) != 0, jammed);
  }

  /** Setting the lowest bit of a number that was cut does not leave its cell, and leaves its bottom. */
  lemma JamCell(q: int, cut: bool, jammed: int)
    requires jammed == q + if cut && q % 2 == 0 then 1 else 0
    ensures jammed / 64 == q / 64 && (jammed % 64 == 0 <==> q % 64 == 0 && !cut)
  {
    var k, r := q / 64, q % 64;
    assert q == 64 * k + r;
    assert q % 2 == r % 2 by { Even(q, r, 32 * k); }
    Cell64(jammed, k, jammed - 64 * k);
  }

  lemma Even(x: int, y: int, k: int)
    requires x == y + 2 * k
    ensures x % 2 == y % 2
  {}

  lemma Cell64(x: int, k: int, r: int)
    requires x == 64 * k + r && 0 <= r < 64
    ensures x / 64 == k && x % 64 == r
  {}

  /** Dividing by `d` and then by a power of two. */
  lemma CutQuotient(n: int, d: int, j: nat)
    requires d > 0 && Scale(d, j) > 0
    ensures n / Scale(d, j) == Shr(n / d, j)
    ensures n % Scale(d, j) == 0 <==> n % d == 0 && Low(n / d, j) == 0
  {
    var f := n / d;
    var q := Shr(f, j);
    LowBounds(f, j);
    CompareFloor(q, n, Scale(d, j));
    CompareFloor(q + 1, n, Scale(d, j));
    ScaleTimes(q, d, j);
    ScaleTimes(q + 1, d, j);
    SwapScale(q, d, j);
    SwapScale(q + 1, d, j);
    CompareFloor(Scale(q, j), n, d);
    CompareFloor(Scale(q + 1, j), n, d);
    ScaleAdd(q, 1, j);
  }

  lemma SwapScale(q: int, d: int, j: nat)
    ensures Scale(q * d, j) == Scale(q, j) * d
  {
    ScaleTimes(d, q, j);
    assert d * q == q * d;
  }

  const SIX: nat := 6

  lemma SixBits(x: int)
    ensures Shr(x, SIX) == x / 64 && Low(x, SIX) == x % 64
  {
    ScaleSix(x / 64);
    ScaleSix(1);
    ShrUnique(x, SIX, x / 64, x % 64);
  }

  lemma ScaleSix(x: int)
    ensures Scale(x, SIX) == 64 * x
  {
    Scale4(x);
    assert Scale(x, 5) == 2 * Scale(x, 4);
    assert Scale(x, 6) == 2 * Scale(x, 5);
  }

  /** Nothing is cut off in two steps exactly when nothing is cut off in one. */
  lemma LowTwice(x: int, i: nat, j: nat)
    ensures Low(x, i + j) == 0 <==> Low(x, i) == 0 && Low(Shr(x, i), j) == 0
  {
    var y := Shr(x, i);
    LowBounds(x, i);
    LowBounds(y, j);
    CutTwice(Low(x, i), y, i, j);
    NonNegative(Low(y, j), i);
    ScaleOrder(0, Low(y, j), i);
    ScaleZero(i);
  }

  /** Cells of 64 after a shift. */
  lemma CutSixtyFour(x: int, j: nat)
    ensures Shr(x, j) / 64 == Shr(x / 64, j)
    ensures (Shr(x, j) % 64 == 0 && Low(x, j) == 0) <==> (x % 64 == 0 && Low(x / 64, j) == 0)
  {
    SixBits(x);
    SixBits(Shr(x, j));
    ShrShr(x, j, SIX);
    ShrShr(x, SIX, j);
    LowTwice(x, j, SIX);
    LowTwice(x, SIX, j);
  }
}
