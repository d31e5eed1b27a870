/**
 `softfloat_approxRecip32_1`: a reciprocal from a table of sixteen lines, improved by a Newton step
 and its square.  It stays below the true one, by little more than two units.
 */
module F32Recip {
  import opened Common

  const TWO20 := 0x10_0000
  const TWO24 := 0x100_0000
  const TWO33 := 0x2_0000_0000
  const TWO37 := 0x20_0000_0000
  const TWO47 := 0x8000_0000_0000
  const TWO48 := 0x1_0000_0000_0000
  const TWO57 := 0x200_0000_0000_0000
  const TWO67 := 0x8_0000_0000_0000_0000
  const TWO80 := 0x1_0000_0000_0000_0000_0000

  const RECIP_K0: seq<nat> := [
    0xFFC4, 0xF0BE, 0xE363, 0xD76F, 0xCCAD, 0xC2F0, 0xBA16, 0xB201,
    0xAA97, 0xA3C6, 0x9D7A, 0x97A6, 0x923C, 0x8D32, 0x887E, 0x8417]
  const RECIP_K1: seq<nat> := [
    0xF0F1, 0xD62C, 0xBFA1, 0xAC77, 0x9C0A, 0x8DDB, 0x8185, 0x76BA,
    0x6D3B, 0x64D4, 0x5D5C, 0x56B1, 0x50B6, 0x4B55, 0x4679, 0x4211]

  /** The first approximation, by one of the lines. */
  function FirstGuess(a: U32): nat {
    var index := a / 0x800_0000 % 16;
    var eps := a / 0x800 % TWO16;
    (RECIP_K0[index] - RECIP_K1[index] * eps / TWO20) % TWO16
  }

  /** The improvement by one Newton step and its square, in the word sizes of the variables. */
  function Improved(r0: nat, sigma0: nat): U32 {
    var r := (r0 * TWO16 + r0 * sigma0 / TWO24) % TWO32;
    var sqrSigma0 := sigma0 * sigma0 / TWO32;
    (r + r * sqrSigma0 / TWO48) % TWO32
  }

  function ApproxRecip32(a: U32): U32 {
    var r0 := FirstGuess(a);
    Improved(r0, TWO32 - 1 - r0 * a / 128 % TWO32)
  }

  // ----- The lines lie just below the hyperbola -----

  /** `k0 - k1*eps/2^20` against `2^47 / a` over the piece of divisors from `a0` on. */
  predicate Piece(k0: nat, k1: nat, a0: nat) {
    var (p, q) := (TWO20 * (k0 + 1) - 1, a0 + 1792);
    var (a, b, c) := (2048 * k1, 2048 * p - k1 * q, TWO67 - p * q);
    && 0 < k1 && k1 <= k0 && k0 < TWO16 && 4 * a * c > b * b
    && TWO20 * k0 * a0 > TWO67 - TWO57
    && (TWO20 * k0 - k1 * 0xffff) * (a0 + 2048 * 0xffff) > TWO67 - TWO57
  }

  lemma Pieces(i: nat)
    requires i < 16
    ensures Piece(RECIP_K0[i], RECIP_K1[i], TWO31 + i * 0x800_0000)
  {}

  lemma Cancel(x: int, y: int, k: int)
    requires k > 0 && x * k > y * k
    ensures x > y
  {}

  /** A parabola with negative discriminant is positive. */
  lemma Parabola(a: int, b: int, c: int, e: int)
    requires a > 0 && 4 * a * c > b * b
    ensures a * (e * e) - b * e + c > 0
  {
    var v := a * (e * e) - b * e + c;
    var s := 2 * a * e - b;
    assert s * s >= 0;
    assert v * (4 * a) == s * s + (4 * a * c - b * b) by {
      assert s * s == 4 * a * (a * (e * e)) - 4 * a * (b * e) + b * b;
    }
    Cancel(v, 0, 4 * a);
  }

  lemma ProductOfLines(m: int, k: int, n: int, l: int, e: int)
    ensures (m - k * e) * (n + l * e) == m * n + (m * l - k * n) * e - k * l * (e * e)
  {
    assert (m - k * e) * (n + l * e) == m * n + m * (l * e) - k * e * n - k * e * (l * e);
    assert m * (l * e) == m * l * e && k * e * n == k * n * e && k * e * (l * e) == k * l * (e * e);
  }

  /** Over an interval a product of two lines, one rising and one falling, is above its lower end. */
  lemma Chord(m: int, k: int, n: int, l: int, e: int, last: int, t: int)
    requires 0 <= e <= last && last > 0 && k >= 0 && l >= 0
    requires m * n > t && (m - k * last) * (n + l * last) > t
    ensures (m - k * e) * (n + l * e) > t
  {
    ProductOfLines(m, k, n, l, e);
    ProductOfLines(m, k, n, l, last);
    Concave(m * n, m * l - k * n, k * l, e, last, t);
  }

  lemma Concave(c: int, b: int, a: int, e: int, last: int, t: int)
    requires 0 <= e <= last && last > 0 && a >= 0
    requires c > t && c + b * last - a * (last * last) > t
    ensures c + b * e - a * (e * e) > t
  {
    var f := c + b * e - a * (e * e);
    var g := c + b * last - a * (last * last);
    ChordIdentity(c, b, a, e, last);
    Weighted(c, g, last - e, e, t);
    Product3(a, e, last - e, last);
    Cancel(f, t, last);
  }

  lemma Product3(a: int, x: int, y: int, z: int)
    requires a >= 0 && x >= 0 && y >= 0 && z >= 0
    ensures a * (x * y * z) >= 0
  {
    assert x * y >= 0;
    assert x * y * z >= 0;
  }

  lemma ChordIdentity(c: int, b: int, a: int, e: int, last: int)
    ensures (c + b * e - a * (e * e)) * last
         == c * (last - e) + (c + b * last - a * (last * last)) * e + a * (e * (last - e) * last)
  {
    Distribute(c, b * e, a * (e * e), last);
    Distribute(c, b * last, a * (last * last), e);
    Associate(a, e * e, last);
    Associate(a, last * last, e);
    assert e * (last - e) * last == last * last * e - e * e * last;
    Distribute(0, last * last * e, e * e * last, a);
    assert b * e * last == b * last * e;
  }

  lemma Distribute(x: int, y: int, z: int, k: int)
    ensures (x + y - z) * k == x * k + y * k - z * k && k * (x + y - z) == k * x + k * y - k * z
  {}

  lemma Associate(a: int, x: int, y: int)
    ensures a * x * y == a * (x * y)
  {}

  lemma Weighted(x: int, y: int, u: int, v: int, t: int)
    requires x > t && y > t && u >= 0 && v >= 0 && u + v > 0
    ensures x * u + y * v > t * (u + v)
  {
    AtLeast(x - t, u);
    AtLeast(y - t, v);
    assert x * u == (x - t) * u + t * u && y * v == (y - t) * v + t * v;
    assert t * (u + v) == t * u + t * v;
  }

  lemma AtLeast(d: int, u: int)
    requires d > 0 && u >= 0
    ensures d * u >= u
  {}

  lemma ProductOrder(x: int, x': int, y: int, y': int)
    requires x <= x' && 0 <= y <= y' && 0 <= x'
    ensures x * y <= x' * y'
  {
    assert x * y <= x' * y && x' * y <= x' * y';
  }

  lemma BelowCurve(p: int, k1: int, q: int, eps: int, line: int, r: int, a: int)
    requires k1 > 0 && 4 * (2048 * k1) * (TWO67 - p * q) > (2048 * p - k1 * q) * (2048 * p - k1 * q)
    requires line == k1 * eps && r <= p - line && 0 <= p - line && 0 <= a <= q + 2048 * eps
    ensures r * a < TWO67
  {
    ProductOfLines(p, k1, q, 2048, eps);
    Parabola(2048 * k1, 2048 * p - k1 * q, TWO67 - p * q, eps);
    ProductOrder(r, p - line, a, q + 2048 * eps);
    assert k1 * 2048 * (eps * eps) == 2048 * k1 * (eps * eps);
  }

  lemma AboveCurve(m: int, k1: int, a0: int, eps: int, line: int, r: int, a: int)
    requires k1 > 0 && 0 <= eps <= 0xffff && a0 >= 0
    requires m * a0 > TWO67 - TWO57 && (m - k1 * 0xffff) * (a0 + 2048 * 0xffff) > TWO67 - TWO57
    requires line == k1 * eps && m - line <= r && 0 <= r && a0 + 2048 * eps <= a
    ensures r * a > TWO67 - TWO57
  {
    Chord(m, k1, a0, 2048, eps, 0xffff, TWO67 - TWO57);
    ProductOrder(m - line, r, a0 + 2048 * eps, a);
  }

  /** Every divisor of a piece: the guess is below the reciprocal by less than one part in 2^10. */
  lemma GuessInPiece(i: nat, eps: nat, low: nat, a: nat)
    requires i < 16 && eps <= 0xffff && low <= 1792 && a == TWO31 + i * 0x800_0000 + 2048 * eps + low
    ensures RECIP_K1[i] * eps / TWO20 <= RECIP_K0[i] < TWO16
    ensures TWO47 - TWO37 < (RECIP_K0[i] - RECIP_K1[i] * eps / TWO20) * a < TWO47
  {
    Pieces(i);
    var (k0, k1, a0) := (RECIP_K0[i], RECIP_K1[i], TWO31 + i * 0x800_0000);
    var t, rest := Divided(k1 * eps, TWO20);
    Small(k1, eps, t);
    var (line, r) := (k1 * eps, TWO20 * (k0 - t));
    BelowCurve(TWO20 * (k0 + 1) - 1, k1, a0 + 1792, eps, line, r, a);
    AboveCurve(TWO20 * k0, k1, a0, eps, line, r, a);
    Unscale(k0 - t, a);
  }

  lemma Unscale(x: nat, a: nat)
    requires TWO67 - TWO57 < TWO20 * x * a < TWO67
    ensures TWO47 - TWO37 < x * a < TWO47
  {
    assert TWO20 * x * a == TWO20 * (x * a);
  }

  lemma Small(k1: nat, eps: nat, t: nat)
    requires eps <= 0xffff && TWO20 * t <= k1 * eps
    ensures t <= k1
  {
    assert k1 * eps <= k1 * 0xffff;
  }

  // ----- The Newton step -----

  const TWO160 := 0x1_0000_0000_0000_0000_0000_0000_0000_0000_0000_0000

  /** First step: `p` is the residual in units of 2^-40, `x` what `r1 * b` comes to. */
  lemma StepOnce(r0: nat, b: nat, p: nat, pp: nat, u: nat, ru: nat, x: nat, y: nat)
    requires r0 * b == TWO47 - 128 * (p + 1) && r0 * p == TWO24 * u + ru && x == (TWO16 * r0 + u) * b
    requires pp == p * p && y == ru * b && ru < TWO24
    ensures TWO24 * x == 128 * (TWO80 - TWO40 - p - pp) - y && y <= TWO24 * b
  {
    var rb := r0 * b;
    assert x == TWO16 * rb + u * b by { Distribute(TWO16 * r0, u, 0, b); Associate(TWO16, r0, b); }
    assert r0 * p * b == TWO24 * (u * b) + ru * b by { Distribute(TWO24 * u, ru, 0, b); Associate(TWO24, u, b); }
    assert r0 * p * b == rb * p by { Associate(r0, p, b); Associate(r0, b, p); }
    assert rb * p == TWO47 * p - 128 * ((p + 1) * p);
    assert (p + 1) * p == pp + p;
    ProductOrder(ru, TWO24, b, b);
  }

  /** Second step, with the square of the residual. */
  lemma StepTwice(r1: nat, b: nat, pp: nat, s: nat, rs: nat, v: nat, rv: nat, x: nat, r: nat)
    requires r1 * s == TWO48 * v + rv && pp == TWO32 * s + rs && x == r1 * b && r == (r1 + v) * b
    ensures TWO80 * r == x * (TWO80 + pp - rs) - TWO32 * (rv * b)
  {
    assert r == x + v * b by { Distribute(r1, v, 0, b); }
    assert r1 * s * b == TWO48 * (v * b) + rv * b by { Distribute(TWO48 * v, rv, 0, b); Associate(TWO48, v, b); }
    assert r1 * s * b == x * s by { Associate(r1, s, b); Associate(r1, b, s); }
    assert x * (TWO80 + TWO32 * s) == TWO80 * x + TWO32 * (x * s) by {
      Distribute(TWO80, TWO32 * s, 0, x);
      Associate(TWO32, s, x);
    }
  }

  lemma SquareOfSum(q: int, pp: int)
    ensures (TWO80 - q - pp) * (TWO80 + pp) == TWO160 - TWO80 * q - q * pp - pp * pp
  {
    Distribute(TWO80, 0, q + pp, TWO80 + pp);
    Distribute(q, pp, 0, TWO80 + pp);
    Distribute(TWO80, pp, 0, q);
    Distribute(TWO80, pp, 0, pp);
  }

  /** The residual's fourth power is all that is left before truncation. */
  lemma Residual(p: nat, pp: nat, n: int)
    requires p < 0x4000_0000 && pp <= 0x1000_0000_0000_0000 && n == TWO80 - TWO40 - p - pp
    ensures 0 < n <= TWO80
    ensures TWO160 - 0x202_0000_0000_0000_0000_0000_0000_0000 <= n * (TWO80 + pp) < TWO160
  {
    var q := TWO40 + p;
    SquareOfSum(q, pp);
    ProductOrder(q, TWO40 + 0x4000_0000, pp, 0x1000_0000_0000_0000);
    ProductOrder(pp, 0x1000_0000_0000_0000, pp, 0x1000_0000_0000_0000);
    ProductOrder(0, q, 0, pp);
  }

  lemma NotAbove(x: nat, n: int, b: nat, pp: nat, rs: nat, rv: nat, r: nat)
    requires 0x2_0000 * x <= n && n * (TWO80 + pp) < TWO160
    requires TWO80 * r == x * (TWO80 + pp - rs) - TWO32 * (rv * b)
    ensures r < TWO63
  {
    Distribute(TWO80 + pp, 0, rs, x);
    Monotone(0x2_0000 * x, n, TWO80 + pp);
    Associate(0x2_0000, x, TWO80 + pp);
    ProductOrder(0, x, 0, rs);
    ProductOrder(0, rv, 0, b);
  }

  lemma NotFarBelow(x: nat, n: int, b: nat, pp: nat, rs: nat, rv: nat, r: nat)
    requires b < TWO32 && rs < TWO32 && rv < TWO48 && pp <= 0x1000_0000_0000_0000 && n <= TWO80
    requires n - 0x2_0000 * b <= 0x2_0000 * x
    requires n * (TWO80 + pp) >= TWO160 - 0x202_0000_0000_0000_0000_0000_0000_0000
    requires TWO80 * r == x * (TWO80 + pp - rs) - TWO32 * (rv * b)
    ensures r >= TWO63 - 2 * b - 0x102_0000
  {
    var e := TWO80 + pp - rs;
    var (xe, be) := (x * e, b * e);
    Monotone(n - 0x2_0000 * b, 0x2_0000 * x, e);
    Associate(0x2_0000, x, e);
    Associate(0x2_0000, b, e);
    Distribute(n, 0, 0x2_0000 * b, e);
    LessTruncated(n, b, pp, rs, n * e, be);
    ProductOrder(rv, TWO48, b, b);
    assert 0x2_0000 * xe >= n * e - 0x2_0000 * be;
  }

  lemma LessTruncated(n: int, b: nat, pp: nat, rs: nat, ne: int, be: int)
    requires b < TWO32 && rs < TWO32 && pp <= 0x1000_0000_0000_0000 && n <= TWO80
    requires ne == n * (TWO80 + pp - rs) && be == b * (TWO80 + pp - rs)
    ensures ne >= n * (TWO80 + pp) - TWO80 * TWO32
    ensures be <= TWO80 * b + TWO32 * 0x1000_0000_0000_0000
  {
    Distribute(TWO80 + pp, 0, rs, n);
    LargestProduct(n, rs, TWO80, TWO32);
    Distribute(TWO80, pp, rs, b);
    ProductOrder(b, TWO32, pp, 0x1000_0000_0000_0000);
    ProductOrder(0, b, 0, rs);
  }

  lemma Monotone(x: int, y: int, k: int)
    requires x <= y && k >= 0
    ensures x * k <= y * k
  {}

  lemma LargestProduct(x: int, y: nat, m: nat, n: nat)
    requires x <= m && y <= n
    ensures x * y <= m * n
  {
    if x >= 0 {
      ProductOrder(x, m, y, n);
    } else {
      assert x * y <= 0 <= m * n;
    }
  }

  /** Both steps: never above the true reciprocal, and below by two units and a little. */
  lemma NewtonSteps(r0: nat, b: nat, p: nat, u: nat, ru: nat, s: nat, rs: nat, v: nat, rv: nat)
    requires p < 0x4000_0000 && b < TWO32 && r0 * b == TWO47 - 128 * (p + 1)
    requires r0 * p == TWO24 * u + ru && p * p == TWO32 * s + rs && (TWO16 * r0 + u) * s == TWO48 * v + rv
    requires ru < TWO24 && rs < TWO32 && rv < TWO48
    ensures TWO63 - 2 * b - 0x102_0000 <= (TWO16 * r0 + u + v) * b < TWO63
  {
    ProductOrder(p, 0x4000_0000, p, 0x4000_0000);
    Steps(r0, b, p, p * p, u, ru, s, rs, v, rv, TWO16 * r0 + u, (TWO16 * r0 + u) * b, ru * b, (TWO16 * r0 + u + v) * b);
  }

  lemma Steps(r0: nat, b: nat, p: nat, pp: nat, u: nat, ru: nat, s: nat, rs: nat, v: nat, rv: nat,
              r1: nat, x: nat, y: nat, r: nat)
    requires p < 0x4000_0000 && pp <= 0x1000_0000_0000_0000 && b < TWO32 && r0 * b == TWO47 - 128 * (p + 1)
    requires r0 * p == TWO24 * u + ru && pp == p * p && pp == TWO32 * s + rs && r1 * s == TWO48 * v + rv
    requires ru < TWO24 && rs < TWO32 && rv < TWO48
    requires r1 == TWO16 * r0 + u && x == r1 * b && y == ru * b && r == (r1 + v) * b
    ensures TWO63 - 2 * b - 0x102_0000 <= r < TWO63
  {
    StepOnce(r0, b, p, pp, u, ru, x, y);
    StepTwice(r1, b, pp, s, rs, v, rv, x, r);
    Settled(b, p, pp, y, rs, rv, x, r);
  }

  lemma Settled(b: nat, p: nat, pp: nat, rb: nat, rs: nat, rv: nat, x: nat, r: nat)
    requires p < 0x4000_0000 && pp <= 0x1000_0000_0000_0000 && b < TWO32 && rs < TWO32 && rv < TWO48
    requires rb <= TWO24 * b && TWO24 * x == 128 * (TWO80 - TWO40 - p - pp) - rb
    requires TWO80 * r == x * (TWO80 + pp - rs) - TWO32 * (rv * b)
    ensures TWO63 - 2 * b - 0x102_0000 <= r < TWO63
  {
    var n := TWO80 - TWO40 - p - pp;
    Residual(p, pp, n);
    NotFarBelow(x, n, b, pp, rs, rv, r);
    NotAbove(x, n, b, pp, rs, rv, r);
  }

  // ----- The approximation as a whole -----

  /** The fields of a divisor with its significand in the upper 24 bits. */
  lemma Fields(sb: nat, a: U32) returns (i: nat, eps: nat, low: nat)
    requires 0x80_0000 <= sb < 0x100_0000 && a == 256 * sb
    ensures i < 16 && i == a / 0x800_0000 % 16 && eps == a / 0x800 % TWO16 && low <= 1792
    ensures a == TWO31 + i * 0x800_0000 + 2048 * eps + low
  {
    var (g, h) := (sb / 8, sb % 8);
    assert a == 2048 * g + 256 * h && a / 0x800 == g;
    var top := g / TWO16;
    eps, low := g % TWO16, 256 * h;
    assert a == 0x800_0000 * top + 2048 * eps + low && 0 <= 2048 * eps + low < 0x800_0000;
    assert a / 0x800_0000 == top;
    i := top - 16;
  }

  lemma FirstGuessIs(a: U32, i: nat, eps: nat, t: nat)
    requires i < 16 && i == a / 0x800_0000 % 16 && eps == a / 0x800 % TWO16
    requires t == RECIP_K1[i] * eps / TWO20 && t <= RECIP_K0[i] < TWO16
    ensures FirstGuess(a) == RECIP_K0[i] - t
  {}

  lemma GuessOf(sb: nat, a: U32) returns (r0: nat)
    requires 0x80_0000 <= sb < 0x100_0000 && a == 256 * sb
    ensures r0 == FirstGuess(a) < TWO16 && TWO47 - TWO37 < r0 * a < TWO47
  {
    var i, eps, low := Fields(sb, a);
    GuessInPiece(i, eps, low, a);
    var t := RECIP_K1[i] * eps / TWO20;
    FirstGuessIs(a, i, eps, t);
    r0 := RECIP_K0[i] - t;
  }

  /** The complement of the low word is the residual. */
  lemma Complement(m: int, p: int)
    requires m == TWO40 - (p + 1) && 0 <= p < 0x4000_0000
    ensures TWO32 - 1 - m % TWO32 == p
  {}

  lemma ResidualOf(r0: nat, sb: nat, a: nat) returns (p: nat)
    requires a == 256 * sb && TWO47 - TWO37 < r0 * a < TWO47
    ensures p < 0x4000_0000 && r0 * a == TWO47 - 128 * (p + 1)
    ensures TWO32 - 1 - r0 * a / 128 % TWO32 == p
  {
    var m := 2 * (r0 * sb);
    assert r0 * a == 128 * m by { Associate(r0, 256, sb); Associate(256, r0, sb); }
    p := TWO40 - m - 1;
    Complement(m, p);
  }

  /** For every divisor of `f32_div`: below the true reciprocal, by two units and a little. */
  lemma ApproxBounds(sb: nat, a: U32)
    requires 0x80_0000 <= sb < 0x100_0000 && a == 256 * sb
    ensures TWO63 - 2 * a - 0x102_0000 <= ApproxRecip32(a) * a < TWO63
  {
    var r0 := GuessOf(sb, a);
    var p := ResidualOf(r0, sb, a);
    StepsOfImproved(r0, a, p);
  }

  lemma Divided(x: nat, k: nat) returns (q: nat, r: nat)
    requires k > 0
    ensures q == x / k && x == k * q + r && r < k
  {
    q, r := x / k, x % k;
  }

  /** The three divisions of the improvement with their remainders. */
  lemma Parts(r0: nat, a: U32, p: nat) returns (u: nat, ru: nat, s: nat, rs: nat, v: nat, rv: nat)
    requires p < 0x4000_0000 && r0 * a == TWO47 - 128 * (p + 1) && a >= TWO31
    ensures r0 * p == TWO24 * u + ru && p * p == TWO32 * s + rs && (TWO16 * r0 + u) * s == TWO48 * v + rv
    ensures ru < TWO24 && rs < TWO32 && rv < TWO48
    ensures Improved(r0, p) == TWO16 * r0 + u + v
    ensures TWO63 - 2 * a - 0x102_0000 <= (TWO16 * r0 + u + v) * a < TWO63
  {
    u, ru := Divided(r0 * p, TWO24);
    s, rs := Divided(p * p, TWO32);
    v, rv := Divided((TWO16 * r0 + u) * s, TWO48);
    NewtonSteps(r0, a, p, u, ru, s, rs, v, rv);
    FitsWord(TWO16 * r0 + u + v, a);
    ImprovedIs(r0, p, u, s, v);
  }

  lemma StepsOfImproved(r0: nat, a: U32, p: nat)
    requires p < 0x4000_0000 && r0 * a == TWO47 - 128 * (p + 1) && a >= TWO31
    ensures TWO63 - 2 * a - 0x102_0000 <= Improved(r0, p) * a < TWO63
  {
    var u, ru, s, rs, v, rv := Parts(r0, a, p);
  }

  lemma ImprovedIs(r0: nat, p: nat, u: nat, s: nat, v: nat)
    requires u == r0 * p / TWO24 && s == p * p / TWO32 && v == (TWO16 * r0 + u) * s / TWO48
    requires TWO16 * r0 + u + v < TWO32
    ensures Improved(r0, p) == TWO16 * r0 + u + v
  {
    assert (r0 * TWO16 + u) % TWO32 == TWO16 * r0 + u;
  }

  lemma FitsWord(r: nat, a: nat)
    requires a >= TWO31 && r * a < TWO63
    ensures r < TWO32
  {
    if r >= TWO32 { ProductOrder(TWO32, r, TWO31, a); }
  }
}
