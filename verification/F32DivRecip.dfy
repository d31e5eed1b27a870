/**
 The significand of `f32_div` without a fast 64-by-32 division: a reciprocal approximated from
 below by table and Newton step, a guess from it, and a correction when the guess is near a
 multiple of 64.
 */
module F32DivRecip {
  import opened Bits
  import opened Common
  import opened Float32
  import opened F32RoundPack
  import opened F32Arith
  import opened F32Recip
  import opened F32RecipLast

  /**
   What the division needs of a reciprocal `r` of `beta`: below 2^63 / beta, and close enough that
   the quotient of `alpha` loses at most two units.
   */
  predicate CloseFor(alpha: nat, r: nat, beta: nat) {
    r * beta < TWO63 && alpha * (TWO63 - r * beta) <= TWO33 * beta
  }

  /** Within 2^33 it is close enough for every smaller `alpha`. */
  predicate CloseBelow(r: nat, beta: nat) { TWO63 - TWO33 <= r * beta < TWO63 }

  lemma CloseForSmaller(alpha: nat, r: nat, beta: nat)
    requires alpha <= beta && CloseBelow(r, beta)
    ensures CloseFor(alpha, r, beta)
  {
    ProductOrder(alpha, beta, TWO63 - r * beta, TWO33);
  }

  /** The significand of the dividend, shifted so that the quotient has 31 bits. */
  function Shifted(sa: nat, sb: nat): nat { if sa < sb then 256 * sa else 128 * sa }

  /** The approximation is close enough for all dividends and divisors. */
  lemma ApproxIsClose(sa: nat, sb: nat)
    requires HIDDEN <= sa < 2 * HIDDEN && HIDDEN <= sb < 2 * HIDDEN
    ensures CloseFor(Shifted(sa, sb), ApproxRecip32(256 * sb), 256 * sb)
  {
    var (alpha, beta, r) := (Shifted(sa, sb), 256 * sb, ApproxRecip32(256 * sb));
    ApproxBounds(sb, beta);
    if sa < sb {
      if 0x100_0000 - sb <= LAST { LastAreClose(0x100_0000 - sb); }
      CloseForSmaller(alpha, r, beta);
    } else {
      ProductOrder(alpha, TWO31, TWO63 - r * beta, 2 * beta + 0x102_0000);
    }
  }

  /** The guess `alpha * r / 2^32 + 2` lies between the exact quotient minus one and plus two. */
  lemma GuessBounds(alpha: nat, beta: nat, r: nat, z: nat)
    requires alpha > 0 && beta > 0 && CloseFor(alpha, r, beta) && z == alpha * r / TWO32 + 2
    ensures (z - 2) * beta < alpha * TWO31 < (z + 1) * beta
  {
    var t := alpha * r;
    var g := z - 2;
    assert TWO32 * g <= t < TWO32 * (g + 1);
    Times(TWO32 * g, t, beta);
    Strict(t, TWO32 * (g + 1), beta);
    var gap := TWO63 - r * beta;
    assert t * beta == alpha * (r * beta) == TWO63 * alpha - alpha * gap;
    Strict(0, gap, alpha);
    assert (TWO32 * g) * beta == TWO32 * (g * beta);
    assert (TWO32 * (g + 1)) * beta == TWO32 * (g * beta) + TWO32 * beta;
    assert (z + 1) * beta == g * beta + 3 * beta;
  }

  lemma Times(x: int, y: int, k: int)
    requires x <= y && k > 0
    ensures x * k <= y * k && k * x <= k * y
  {
    LessTimes(x, y, k);
  }

  lemma Strict(x: int, y: int, k: int)
    requires x < y && k > 0
    ensures x * k < y * k && k * x < k * y
  {
    LessTimes(x, y, k);
  }

  /** A significand taken from the guess stands for the exact quotient. */
  lemma GuessStands(n: int, d: int, z: int, sig: int)
    requires d > 0 && (z - 2) * d < n < (z + 1) * d
    requires
      var m := z - z % 64;
      sig == if z % 64 >= 2 then z else if n < m * d then m - 4 else if n == m * d then m else m + 1
    ensures StandsFor(sig, n, d)
  {
    var m := z - z % 64;
    var f := n / d;
    CompareFloor(z - 2, n, d);
    CompareFloor(z + 1, n, d);
    CompareFloor(m, n, d);
    var k := z / 64;
    assert z == 64 * k + z % 64 && m == 64 * k;
    if f < m {
      Cell64(f, k - 1, f - 64 * (k - 1));
      Cell64(sig, k - 1, sig - 64 * (k - 1));
    } else {
      Cell64(f, k, f - 64 * k);
      Cell64(sig, k, sig - 64 * k);
    }
  }

  /** The guess in terms of the operands' significands. */
  lemma GuessForOperands(sa: nat, sb: nat, r: nat, n: nat, alpha: nat, z: nat)
    requires HIDDEN <= sa < 2 * HIDDEN && HIDDEN <= sb < 2 * HIDDEN
    requires alpha == Shifted(sa, sb) && CloseFor(alpha, r, 256 * sb) && z == alpha * r / TWO32 + 2
    requires n == if sa < sb then 0x8000_0000 * sa else 0x4000_0000 * sa
    ensures (z - 2) * sb < n < (z + 1) * sb && alpha * TWO31 == 256 * n
  {
    GuessBounds(alpha, 256 * sb, r, z);
    InUnits(z - 2, sb);
    InUnits(z + 1, sb);
  }

  /** The code between the two shifts of `sigA` and the call of the rounding function. */
  method Significand(sa: nat, sb: nat, r: nat) returns (sigZ: nat, ghost n: nat)
    requires HIDDEN <= sa < 2 * HIDDEN && HIDDEN <= sb < 2 * HIDDEN && CloseFor(Shifted(sa, sb), r, 256 * sb)
    ensures n == if sa < sb then 0x8000_0000 * sa else 0x4000_0000 * sa
    ensures SIG_MIN * sb <= n < SIG_MAX * sb && StandsFor(sigZ, n, sb) && SIG_MIN <= sigZ < SIG_MAX
  {
    var alpha := if sa < sb then 256 * sa else 128 * sa;
    var beta := 256 * sb;
    n := if sa < sb then 0x8000_0000 * sa else 0x4000_0000 * sa;
    sigZ := alpha * r / TWO32 + 2;
    GuessForOperands(sa, sb, r, n, alpha, sigZ);
    QuotientBounds(sa, sb, n);
    CompareFloor(sigZ + 1, n, sb);
    CompareFloor(SIG_MIN, n, sb);
    sigZ := Settle(alpha, beta, sigZ, n, sb);
    CompareStanding(sigZ, SIG_MIN, n, sb);
    CompareStanding(sigZ, SIG_MAX, n, sb);
  }

  /** The correction near a multiple of 64. */
  method Settle(alpha: nat, beta: nat, z: nat, ghost n: nat, ghost d: nat) returns (sigZ: nat)
    requires alpha * TWO31 == 256 * n && beta == 256 * d && 0 < d < TWO32 && z >= 64 && (z - 2) * d < n < (z + 1) * d
    ensures StandsFor(sigZ, n, d)
  {
    sigZ := z;
    if sigZ % 64 < 2 {
      sigZ := sigZ - sigZ % 4;
      LowTwo(z);
      Near(sigZ, z, n, d);
      var rem := (alpha * TWO32 - 2 * sigZ * beta) % TWO64;
      Remainder(alpha, sigZ, beta, n, d, rem);
      if rem >= TWO63 {
        sigZ := sigZ - 4;
      } else if rem != 0 {
        sigZ := sigZ + 1;
      }
    }
    GuessStands(n, d, z, sigZ);
  }

  lemma InUnits(m: int, sb: int)
    ensures m * (256 * sb) == 256 * (m * sb)
  {}

  lemma LowTwo(z: int)
    requires z % 64 < 2
    ensures z % 4 == z % 64
  {}

  /** Near a multiple of 64 the remainder is small. */
  lemma Near(m: int, z: int, n: int, d: int)
    requires d > 0 && m <= z < m + 2 && (z - 2) * d < n < (z + 1) * d
    ensures -2 * d < n - m * d < 3 * d
  {
    LessTimes(m, z, d);
    LessTimes(z, m + 1, d);
    assert (z - 2) * d == z * d - 2 * d && (z + 1) * d == z * d + d && (m + 1) * d == m * d + d;
  }

  /** The 64-bit remainder's top bit is its sign. */
  lemma Remainder(alpha: int, m: int, beta: int, n: int, d: int, rem: int)
    requires alpha * TWO31 == 256 * n && beta == 256 * d && 0 < d < TWO32 && -2 * d < n - m * d < 3 * d
    requires rem == (alpha * TWO32 - 2 * m * beta) % TWO64
    ensures rem >= TWO63 <==> n < m * d
    ensures rem == 0 <==> n == m * d
  {
    assert 2 * m * beta == 512 * (m * d);
    var x := 512 * (n - m * d);
    assert alpha * TWO32 - 2 * m * beta == x;
    if x >= 0 { assert rem == x; } else { assert rem == x + TWO64; }
  }

  /** `f32_div` for finite nonzero operands with any reciprocal that is close enough: correctly rounded. */
  method DivFiniteByReciprocal(negative: bool, ea: int, sa: nat, eb: int, sb: nat, r: nat, mode: Mode,
                               ghost a: nat, ghost b: nat)
    returns (ui: nat, flags: Flags)
    requires Normalised(a, ea, sa) && Normalised(b, eb, sb) && CloseFor(Shifted(sa, sb), r, 256 * sb)
    ensures Correct(ui, flags, Scale(Mag(a), UNIT), Mag(b), mode, negative)
  {
    var expZ := ea - eb + 0x7E;
    if sa < sb { expZ := expZ - 1; }
    var sigZ;
    ghost var n;
    sigZ, n := Significand(sa, sb, r);
    ScaledSignificand(sa);
    ui, flags := RoundPack(negative, expZ, sigZ, mode, n, sb);
    QuotientRounds(ui - Pack(negative, 0, 0), flags, a, b, ea, sa, eb, sb, if sa < sb then 31 else 30,
                   expZ, mode, negative);
  }

  /** The branch as it stands: correctly rounded for all finite nonzero operands, in every mode. */
  method DivFiniteApprox(negative: bool, ea: int, sa: nat, eb: int, sb: nat, mode: Mode, ghost a: nat, ghost b: nat)
    returns (ui: nat, flags: Flags)
    requires Normalised(a, ea, sa) && Normalised(b, eb, sb)
    ensures Correct(ui, flags, Scale(Mag(a), UNIT), Mag(b), mode, negative)
  {
    ApproxIsClose(sa, sb);
    ui, flags := DivFiniteByReciprocal(negative, ea, sa, eb, sb, ApproxRecip32(256 * sb), mode, a, b);
  }
}
