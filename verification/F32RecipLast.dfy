/**
 `softfloat_approxRecip32_1` for the last 33023 divisors of `f32_div`, from 0xFF7F01 on, which the
 bound for all divisors leaves open: its product with the divisor is never more than 2^33 below 2^63.

 Each of its two steps cuts off less than a unit.  That can only be too much if both cut off nearly
 a whole unit, and for the first step this is a linear question about the divisor, one for every
 value of the first guess.  It happens for 25 divisors, whose second step is then evaluated.
 */
module F32RecipLast {
  import opened Common
  import opened F32Recip

  const TWO17 := 0x2_0000
  const TWO25 := 0x200_0000
  const TWO29 := 0x2000_0000
  const TWO56 := 0x100_0000_0000_0000
  const TWO104 := 0x100_0000_0000_0000_0000_0000_0000

  /** Divisors are counted back from 2^24. */
  const LAST := 33023

  /** What the steps lose besides their truncations, in units of the divisor's last place. */
  const SLACK := 8557058

  // ----- The loss in terms of what the truncations cut off -----

  lemma FineResidual(p: nat, pp: nat, n: int)
    requires p < TWO29 && pp <= TWO57 && n == TWO80 - TWO40 - p - pp
    ensures 0 < n <= TWO80
    ensures n * (TWO80 + pp) >= TWO160 - 0x104_2004_0000_0000_0000_0000_0000_0000
  {
    SquareOfSum(TWO40 + p, pp);
    ProductOrder(TWO40 + p, TWO40 + TWO29, pp, TWO57);
    ProductOrder(pp, TWO57, pp, TWO57);
  }

  /** `ru` and `rv` are what the two divisions cut off; the second is taken as a whole unit. */
  lemma FineBound(x: nat, n: int, y: nat, b: nat, pp: nat, rs: nat, rv: nat, r: nat)
    requires b < TWO32 && rs < TWO32 && rv < TWO48 && pp <= TWO57 && n <= TWO80 && y <= TWO24 * b
    requires TWO24 * x == 128 * n - y && TWO80 * r == x * (TWO80 + pp - rs) - TWO32 * (rv * b)
    requires n * (TWO80 + pp) >= TWO160 - 0x104_2004_0000_0000_0000_0000_0000_0000
    ensures TWO24 * (TWO63 - r) <= TWO24 * (b + SLACK) + y
  {
    var e := TWO80 + pp - rs;
    var (xe, ne, ye) := (x * e, n * e, y * e);
    assert TWO24 * xe == 128 * ne - ye by {
      Distribute(128 * n, 0, y, e);
      Associate(TWO24, x, e);
      Associate(128, n, e);
    }
    Distribute(TWO80 + pp, 0, rs, n);
    LargestProduct(n, rs, TWO80, TWO32);
    SmallShare(y, pp, rs, b);
    ProductOrder(rv, TWO48, b, b);
    assert TWO104 * r == TWO24 * xe - TWO56 * (rv * b);
  }

  lemma SmallShare(y: nat, pp: nat, rs: nat, b: nat)
    requires y <= TWO24 * b && b < TWO32 && pp <= TWO57
    ensures y * (TWO80 + pp - rs) <= TWO80 * y + TWO56 * TWO57
  {
    Distribute(TWO80, pp, rs, y);
    ProductOrder(y, TWO56, pp, TWO57);
    ProductOrder(0, y, 0, rs);
  }

  lemma FineSteps(r0: nat, b: nat, p: nat, u: nat, ru: nat, s: nat, rs: nat, v: nat, rv: nat)
    requires p < TWO29 && p * p <= TWO57 && b < TWO32 && r0 * b == TWO47 - 128 * (p + 1)
    requires r0 * p == TWO24 * u + ru && p * p == TWO32 * s + rs && (TWO16 * r0 + u) * s == TWO48 * v + rv
    requires ru < TWO24 && rs < TWO32 && rv < TWO48
    ensures TWO24 * (TWO63 - (TWO16 * r0 + u + v) * b) <= TWO24 * (b + SLACK) + ru * b
  {
    var (pp, r1) := (p * p, TWO16 * r0 + u);
    var (x, y, r) := (r1 * b, ru * b, (r1 + v) * b);
    FineStepsOf(r0, b, p, pp, u, ru, s, rs, v, rv, r1, x, y, r);
  }

  lemma FineStepsOf(r0: nat, b: nat, p: nat, pp: nat, u: nat, ru: nat, s: nat, rs: nat, v: nat, rv: nat,
                    r1: nat, x: nat, y: nat, r: nat)
    requires p < TWO29 && pp <= TWO57 && b < TWO32 && r0 * b == TWO47 - 128 * (p + 1)
    requires r0 * p == TWO24 * u + ru && pp == p * p && pp == TWO32 * s + rs && r1 * s == TWO48 * v + rv
    requires ru < TWO24 && rs < TWO32 && rv < TWO48
    requires r1 == TWO16 * r0 + u && x == r1 * b && y == ru * b && r == (r1 + v) * b
    ensures TWO24 * (TWO63 - r) <= TWO24 * (b + SLACK) + y
  {
    StepOnce(r0, b, p, pp, u, ru, x, y);
    StepTwice(r1, b, pp, s, rs, v, rv, x, r);
    var n := TWO80 - TWO40 - p - pp;
    FineResidual(p, pp, n);
    FineBound(x, n, y, b, pp, rs, rv, r);
  }

  /** Close enough, unless the first division cuts off nearly a whole unit. */
  lemma CloseUnlessTight(b: nat, d: nat, ru: nat, r: nat)
    requires b == TWO32 - 256 * d && d <= LAST && ru < TWO24
    requires TWO24 * (TWO63 - r) <= TWO24 * (b + SLACK) + ru * b
    ensures TWO63 - r <= TWO33 || Tight(d, TWO24 - ru)
  {
    var u := TWO24 - ru;
    assert ru * b == TWO24 * b - u * b;
    ProductOrder(u, u, 255 * TWO24, b);
    assert TWO24 * (TWO63 - r) <= TWO24 * (2 * b + SLACK - 255 * u);
  }

  // ----- The first guess near the end of its last line -----

  /** The guess of the divisor 2^24 - d, as 2^15 + j. */
  ghost predicate Guess(j: int, d: int) { GuessFrom(j, d, (d - 1) / 8) }

  ghost predicate GuessFrom(j: int, d: int, e: int) {
    && 1 <= d <= LAST && 8 * e < d <= 8 * e + 8
    && TWO20 * (1047 - j) <= 16913 * (65535 - e) < TWO20 * (1048 - j)
  }

  lemma LastGuess(d: nat, a: U32) returns (j: int)
    requires 1 <= d <= LAST && a == TWO32 - 256 * d
    ensures FirstGuess(a) == 0x8000 + j && Guess(j, d) && -10 <= j <= 57
  {
    var i, eps, low := Fields(TWO24 - d, a);
    var e := (d - 1) / 8;
    assert d - 1 == 8 * e + (d - 1) % 8 && eps < TWO16;
    assert i == 15 && eps == 65535 - e;
    var t: nat, rest := Divided(16913 * (65535 - e), TWO20);
    FirstGuessIs(a, i, eps, t);
    j := 1047 - t;
  }

  /** The residual is smaller here than in general. */
  lemma LastResidual(j: int, d: nat, a: nat, p: nat)
    requires Guess(j, d) && a == TWO32 - 256 * d && (0x8000 + j) * a == TWO47 - 128 * (p + 1) && -10 <= j <= 57
    ensures p < 379000000
  {
    var e := (d - 1) / 8;
    var line := 34349203985 + 16913 * e;
    assert TWO20 * (0x8000 + j) >= line && a >= TWO32 - 2048 - 2048 * e;
    FallingChord(e);
    ProductOrder(line, TWO20 * (0x8000 + j), TWO32 - 2048 - 2048 * e, a);
    Associate(TWO20, 0x8000 + j, a);
  }

  lemma FallingChord(e: int)
    requires 0 <= e <= 4127
    ensures (34349203985 + 16913 * e) * (TWO32 - 2048 - 2048 * e) > TWO67 - 379000000 * 0x800_0000
  {
    ProductOfLines(TWO32 - 2048, 2048, 34349203985, 16913, e);
    ProductOfLines(TWO32 - 2048, 2048, 34349203985, 16913, 4127);
    Chord(TWO32 - 2048, 2048, 34349203985, 16913, e, 4127, TWO67 - 379000000 * 0x800_0000);
  }

  // ----- What the first division cuts off, as a linear question -----

  /** `p` stands for j * d and `s` for j * j * d. */
  ghost predicate Product(j: int, d: int, p: int, s: int, i: int) { j == i ==> p == i * d && s == i * i * d }

  /** The first division falls short of a whole unit by `u`. */
  ghost predicate Leaves(j: int, d: int, e: int, k: int, m: int, u: int, p: int, s: int) {
    && GuessFrom(j, d, e) && m + p == 128 * k && 2 * s + u == TWO17 * m + 0x8000 + j && 0 < u
    && forall i :: Product(j, d, p, s, i)
  }

  /** It cuts off nearly a whole unit. */
  predicate Tight(d: int, u: int) { 255 * u + 512 * d < SLACK }

  lemma LeavesOf(j: int, d: nat, p: nat, q: nat, ru: nat) returns (k: int, m: int)
    requires Guess(j, d) && -10 <= j <= 57 && ru < TWO24
    requires p == TWO40 - 1 - 2 * ((0x8000 + j) * (TWO24 - d)) && (0x8000 + j) * p == TWO24 * q + ru
    ensures Leaves(j, d, (d - 1) / 8, k, m, TWO24 - ru, j * d, j * j * d)
  {
    var r0 := 0x8000 + j;
    k := q + 1 - TWO16 * r0 + 2 * (r0 * r0) - 128 * d;
    m := 128 * k - j * d;
    CutOff(r0, d, p);
    Squared(j, d);
    Collect(j, d, q, ru, r0 * r0, r0 * r0 * d, j * d, j * j * d, k);
    ProductsOf(j, d);
  }

  lemma ProductsOf(j: int, d: int)
    ensures forall i :: Product(j, d, j * d, j * j * d, i)
  {}

  lemma Collect(j: int, d: int, q: int, ru: int, rr: int, rrd: int, jd: int, jjd: int, k: int)
    requires TWO24 * q + ru == TWO24 * (TWO16 * (0x8000 + j) - 2 * rr) + 2 * rrd - (0x8000 + j)
    requires rrd == 0x4000_0000 * d + TWO16 * jd + jjd
    requires k == q + 1 - TWO16 * (0x8000 + j) + 2 * rr - 128 * d
    ensures 2 * jjd + (TWO24 - ru) == TWO17 * (128 * k - jd) + 0x8000 + j
  {}

  lemma CutOff(r0: int, d: int, p: int)
    requires p == TWO40 - 1 - 2 * (r0 * (TWO24 - d))
    ensures r0 * p == TWO24 * (TWO16 * r0 - 2 * (r0 * r0)) + 2 * (r0 * r0 * d) - r0
  {
    assert r0 * (TWO24 - d) == TWO24 * r0 - r0 * d;
    assert r0 * p == TWO40 * r0 - r0 - TWO25 * (r0 * r0) + 2 * (r0 * (r0 * d)) by {
      Distribute(TWO40 - 1, 2 * (r0 * d), TWO25 * r0, r0);
    }
    Associate(r0, r0, d);
  }

  lemma Squared(j: int, d: int)
    ensures (0x8000 + j) * (0x8000 + j) * d == 0x4000_0000 * d + TWO16 * (j * d) + j * j * d
  {
    assert (0x8000 + j) * (0x8000 + j) == 0x4000_0000 + TWO16 * j + j * j;
    Distribute(0x4000_0000, TWO16 * j + j * j, 0, d);
    Distribute(TWO16 * j, j * j, 0, d);
    Associate(TWO16, j, d);
  }

  /** The divisors for which the first division cuts off nearly all. */
  predicate Rare(d: int) {
    d in {
      128, 1463, 3520, 3584, 3648, 3712, 3776, 3840, 3904, 3968, 4096, 4224, 4352, 4480, 4992,
      5120, 5248, 5376, 7530, 7594, 7658, 7722, 8246, 9101, 11311
    }
  }

  // For each guess the multiple `m` can only take the values given, and each of those leaves few divisors.

  lemma FirstGuesses(j: int, d: int, e: int, k: int, m: int, u: int, p: int, s: int)
    requires Leaves(j, d, e, k, m, u, p, s) && -10 <= j < -7
    ensures Tight(d, u) ==> Rare(d)
  {
    if j == -10 {
      assert Product(j, d, p, s, -10);
      assert Tight(d, u) ==> m == 0;
    }
    if j == -9 {
      assert Product(j, d, p, s, -9);
      assert Tight(d, u) ==> m == 0;
    }
    if j == -8 {
      assert Product(j, d, p, s, -8);
    }
  }

  lemma SecondGuesses(j: int, d: int, e: int, k: int, m: int, u: int, p: int, s: int)
    requires Leaves(j, d, e, k, m, u, p, s) && -7 <= j < -4
    ensures Tight(d, u) ==> Rare(d)
  {
    if j == -7 {
      assert Product(j, d, p, s, -7);
      assert Tight(d, u) ==> m == 1;
    }
    if j == -6 {
      assert Product(j, d, p, s, -6);
      assert Tight(d, u) ==> m == 1;
    }
    if j == -5 {
      assert Product(j, d, p, s, -5);
    }
  }

  lemma ThirdGuesses(j: int, d: int, e: int, k: int, m: int, u: int, p: int, s: int)
    requires Leaves(j, d, e, k, m, u, p, s) && -4 <= j < 2
    ensures Tight(d, u) ==> Rare(d)
  {
    if j == -4 {
      assert Product(j, d, p, s, -4);
    }
    if j == -3 {
      assert Product(j, d, p, s, -3);
    }
    if j == -2 {
      assert Product(j, d, p, s, -2);
      assert Tight(d, u) ==> m == 0;
    }
    if j == -1 {
      assert Product(j, d, p, s, -1);
      assert Tight(d, u) ==> m == 0;
    }
    if j == 0 {
      assert Product(j, d, p, s, 0);
    }
    if j == 1 {
      assert Product(j, d, p, s, 1);
      assert Tight(d, u) ==> m == 0;
    }
  }

  lemma FourthGuesses(j: int, d: int, e: int, k: int, m: int, u: int, p: int, s: int)
    requires Leaves(j, d, e, k, m, u, p, s) && 2 <= j < 7
    ensures Tight(d, u) ==> Rare(d)
  {
    if j == 2 {
      assert Product(j, d, p, s, 2);
    }
    if j == 3 {
      assert Product(j, d, p, s, 3);
    }
    if j == 4 {
      assert Product(j, d, p, s, 4);
    }
    if j == 5 {
      assert Product(j, d, p, s, 5);
    }
    if j == 6 {
      assert Product(j, d, p, s, 6);
      assert Tight(d, u) ==> m == 4;
    }
  }

  lemma FifthGuesses(j: int, d: int, e: int, k: int, m: int, u: int, p: int, s: int)
    requires Leaves(j, d, e, k, m, u, p, s) && 7 <= j < 11
    ensures Tight(d, u) ==> Rare(d)
  {
    if j == 7 {
      assert Product(j, d, p, s, 7);
      assert Tight(d, u) ==> m == 6;
    }
    if j == 8 {
      assert Product(j, d, p, s, 8);
    }
    if j == 9 {
      assert Product(j, d, p, s, 9);
      assert Tight(d, u) ==> m == 11;
    }
    if j == 10 {
      assert Product(j, d, p, s, 10);
      assert Tight(d, u) ==> m == 15;
    }
  }

  lemma SixthGuesses(j: int, d: int, e: int, k: int, m: int, u: int, p: int, s: int)
    requires Leaves(j, d, e, k, m, u, p, s) && 11 <= j < 14
    ensures Tight(d, u) ==> Rare(d)
  {
    if j == 11 {
      assert Product(j, d, p, s, 11);
      assert Tight(d, u) ==> m == 19;
    }
    if j == 12 {
      assert Product(j, d, p, s, 12);
      assert Tight(d, u) ==> m == 23;
    }
    if j == 13 {
      assert Product(j, d, p, s, 13);
      assert Tight(d, u) ==> m == 28 || m == 29;
    }
  }

  lemma SeventhGuesses(j: int, d: int, e: int, k: int, m: int, u: int, p: int, s: int)
    requires Leaves(j, d, e, k, m, u, p, s) && 14 <= j < 17
    ensures Tight(d, u) ==> Rare(d)
  {
    if j == 14 {
      assert Product(j, d, p, s, 14);
      assert Tight(d, u) ==> m == 34 || m == 35;
    }
    if j == 15 {
      assert Product(j, d, p, s, 15);
      assert Tight(d, u) ==> m == 41 || m == 42;
    }
    if j == 16 {
      assert Product(j, d, p, s, 16);
      assert Tight(d, u) ==> m == 49 || m == 50;
    }
  }

  lemma EighthGuesses(j: int, d: int, e: int, k: int, m: int, u: int, p: int, s: int)
    requires Leaves(j, d, e, k, m, u, p, s) && 17 <= j < 19
    ensures Tight(d, u) ==> Rare(d)
  {
    match j
    case 17 =>
      assert Product(j, d, p, s, 17) && 12921 <= d <= 13416;
      assert Tight(d, u) ==> m == 57 || m == 58;
    case 18 =>
      assert Product(j, d, p, s, 18) && 13417 <= d <= 13912;
      assert Tight(d, u) ==> m == 67 || m == 68;
  }

  lemma NinthGuesses(j: int, d: int, e: int, k: int, m: int, u: int, p: int, s: int)
    requires Leaves(j, d, e, k, m, u, p, s) && 19 <= j < 21
    ensures Tight(d, u) ==> Rare(d)
  {
    match j
    case 19 =>
      assert Product(j, d, p, s, 19) && 13913 <= d <= 14408;
      assert Tight(d, u) ==> m == 77 || m == 78 || m == 79;
    case 20 =>
      assert Product(j, d, p, s, 20) && 14409 <= d <= 14904;
      assert Tight(d, u) ==> m == 88 || m == 89 || m == 90;
  }

  lemma TenthGuesses(j: int, d: int, e: int, k: int, m: int, u: int, p: int, s: int)
    requires Leaves(j, d, e, k, m, u, p, s) && 21 <= j < 22
    ensures Tight(d, u) ==> Rare(d)
  {
    match j
    case 21 =>
      assert Product(j, d, p, s, 21) && 14905 <= d <= 15400;
      assert Tight(d, u) ==> m == 101 || m == 102 || m == 103;
  }

  lemma EleventhGuesses(j: int, d: int, e: int, k: int, m: int, u: int, p: int, s: int)
    requires Leaves(j, d, e, k, m, u, p, s) && 22 <= j < 23
    ensures Tight(d, u) ==> Rare(d)
  {
    match j
    case 22 =>
      assert Product(j, d, p, s, 22) && 15401 <= d <= 15896;
      assert Tight(d, u) ==> m == 114 || m == 115 || m == 116 || m == 117;
  }

  lemma TwelfthGuesses(j: int, d: int, e: int, k: int, m: int, u: int, p: int, s: int)
    requires Leaves(j, d, e, k, m, u, p, s) && 23 <= j < 25
    ensures Tight(d, u) ==> Rare(d)
  {
    match j
    case 23 =>
      assert Product(j, d, p, s, 23) && 15897 <= d <= 16392;
      assert Tight(d, u) ==> m == 129 || m == 130 || m == 131 || m == 132;
    case 24 =>
      assert Product(j, d, p, s, 24) && 16393 <= d;
      assert Tight(d, u) ==> m == 144 || m == 145 || m == 146;
  }

  /** No divisor with another guess comes near a whole unit. */
  lemma TightIsRare(j: int, d: int, e: int, k: int, m: int, u: int, p: int, s: int)
    requires Leaves(j, d, e, k, m, u, p, s) && -10 <= j
    ensures Tight(d, u) ==> Rare(d)
  {
    if j < -7 { FirstGuesses(j, d, e, k, m, u, p, s); }
    if -7 <= j < -4 { SecondGuesses(j, d, e, k, m, u, p, s); }
    if -4 <= j < 2 { ThirdGuesses(j, d, e, k, m, u, p, s); }
    if 2 <= j < 7 { FourthGuesses(j, d, e, k, m, u, p, s); }
    if 7 <= j < 11 { FifthGuesses(j, d, e, k, m, u, p, s); }
    if 11 <= j < 14 { SixthGuesses(j, d, e, k, m, u, p, s); }
    if 14 <= j < 17 { SeventhGuesses(j, d, e, k, m, u, p, s); }
    if 17 <= j < 19 { EighthGuesses(j, d, e, k, m, u, p, s); }
    if 19 <= j < 21 { NinthGuesses(j, d, e, k, m, u, p, s); }
    if 21 <= j < 22 { TenthGuesses(j, d, e, k, m, u, p, s); }
    if 22 <= j < 23 { EleventhGuesses(j, d, e, k, m, u, p, s); }
    if 23 <= j < 25 { TwelfthGuesses(j, d, e, k, m, u, p, s); }
  }

  // ----- The approximation -----

  ghost predicate Close(d: int)
    requires 1 <= d <= LAST
  {
    var a := TWO32 - 256 * d;
    ApproxRecip32(a) * a >= TWO63 - TWO33
  }

  /** The guesses of these divisors. */
  function RareGuess(d: int): nat {
    if d <= 520 then 32759 else if d <= 1512 then 32761 else if d <= 3992 then 32766 else if d <= 4488 then 32767
    else if d <= 5480 then 32769 else if d <= 7960 then 32774 else if d <= 8456 then 32775
    else if d <= 9448 then 32777 else 32781
  }

  lemma RareGuessIs(j: int, d: int)
    requires Rare(d) && Guess(j, d)
    ensures 0x8000 + j == RareGuess(d)
  {}

  function ResidualAt(r0: nat, d: nat): int { TWO40 - 1 - 2 * (r0 * (TWO24 - d)) }

  /** The improvement of `r0` in numbers, and that it is close enough for `a`. */
  predicate Worked(r0: nat, p: nat, u: nat, s: nat, v: nat, a: nat) {
    && u == r0 * p / 0x100_0000 && s == p * p / 0x1_0000_0000
    && v == (0x1_0000 * r0 + u) * s / 0x1_0000_0000_0000
    && 0x1_0000 * r0 + u + v < 0x1_0000_0000
    && (0x1_0000 * r0 + u + v) * a >= 0x7FFF_FFFE_0000_0000
  }

  type Judge = (nat, nat, nat) -> bool

  ghost predicate Fair(close: Judge) {
    forall r0: nat, p: nat, u: nat, s: nat, v: nat, a: nat :: Worked(r0, p, u, s, v, a) ==> close(r0, p, a)
  }

  /** The few that are left, worked out. */
  lemma RareWorked(close: Judge, d: nat, p: nat)
    requires Fair(close) && Rare(d) && p == ResidualAt(RareGuess(d), d)
    ensures close(RareGuess(d), p, 0x1_0000_0000 - 256 * d)
  {
    match d
    case 128 => assert Worked(32759, 310376191, 606036, 22429362, 171, 4294934528);
    case 1463 => assert Worked(32761, 330739709, 645837, 25469054, 194, 4294592768);
    case 3520 => assert Worked(32766, 297781503, 581568, 20645983, 157, 4294066176);
    case 3584 => assert Worked(32766, 301975551, 589759, 21231647, 162, 4294049792);
    case 3648 => assert Worked(32766, 306169599, 597950, 21825503, 166, 4294033408);
    case 3712 => assert Worked(32766, 310363647, 606141, 22427549, 171, 4294017024);
    case 3776 => assert Worked(32766, 314557695, 614332, 23037787, 175, 4294000640);
    case 3840 => assert Worked(32766, 318751743, 622523, 23656215, 180, 4293984256);
    case 3904 => assert Worked(32766, 322945791, 630714, 24282835, 185, 4293967872);
    case 3968 => assert Worked(32766, 327139839, 638905, 24917645, 190, 4293951488);
    case 4096 => assert Worked(32767, 301981695, 589789, 21232511, 162, 4293918720);
    case 4224 => assert Worked(32767, 310370047, 606172, 22428474, 171, 4293885952);
    case 4352 => assert Worked(32767, 318758399, 622555, 23657203, 180, 4293853184);
    case 4480 => assert Worked(32767, 327146751, 638938, 24918698, 190, 4293820416);
    case 4992 => assert Worked(32769, 293611263, 573476, 20071764, 153, 4293689344);
    case 5120 => assert Worked(32769, 302000127, 589861, 21235103, 162, 4293656576);
    case 5248 => assert Worked(32769, 310388991, 606246, 22431212, 171, 4293623808);
    case 5376 => assert Worked(32769, 318777855, 622631, 23660091, 180, 4293591040);
    case 7530 => assert Worked(32774, 292249847, 570904, 19886059, 151, 4293039616);
    case 7594 => assert Worked(32774, 296444919, 579099, 20461061, 156, 4293023232);
    case 7658 => assert Worked(32774, 300639991, 587294, 21044259, 160, 4293006848);
    case 7722 => assert Worked(32774, 304835063, 595489, 21635651, 165, 4292990464);
    case 8246 => assert Worked(32775, 305644275, 597088, 21750671, 166, 4292856320);
    case 9101 => assert Worked(32777, 294617065, 575581, 20209517, 154, 4292637440);
    case 11311 => assert Worked(32781, 305364165, 596650, 21710822, 165, 4292071680);
  }

  function CloseEnough(): Judge {
    (r0: nat, p: nat, a: nat) => Improved(r0, p) * a >= TWO63 - TWO33
  }

  lemma CloseEnoughIsFair()
    ensures Fair(CloseEnough())
  {
    forall r0: nat, p: nat, u: nat, s: nat, v: nat, a: nat | Worked(r0, p, u, s, v, a)
      ensures CloseEnough()(r0, p, a)
    {
      ImprovedIs(r0, p, u, s, v);
    }
  }

  lemma RareIsClose(d: nat, p: nat)
    requires Rare(d) && p == ResidualAt(RareGuess(d), d)
    ensures Improved(RareGuess(d), p) * (TWO32 - 256 * d) >= TWO63 - TWO33
  {
    CloseEnoughIsFair();
    RareWorked(CloseEnough(), d, p);
  }

  /** For the last divisors the approximation stays within 2^33. */
  lemma LastAreClose(d: nat)
    requires 1 <= d <= LAST
    ensures Close(d)
  {
    var a: U32 := TWO32 - 256 * d;
    var j := LastGuess(d, a);
    var r0 := GuessOf(TWO24 - d, a);
    var p := ResidualOf(r0, TWO24 - d, a);
    LastResidual(j, d, a, p);
    LastClose(j, d, a, p);
  }

  lemma LastClose(j: int, d: nat, a: U32, p: nat)
    requires Guess(j, d) && -10 <= j <= 57 && a == TWO32 - 256 * d && FirstGuess(a) == 0x8000 + j
    requires p < 379000000 && (0x8000 + j) * a == TWO47 - 128 * (p + 1)
    requires ApproxRecip32(a) == Improved(0x8000 + j, p)
    ensures Close(d)
  {
    var q, ru := Shortfall(0x8000 + j, a, d, p);
    Halve(0x8000 + j, d, p);
    var k, m := LeavesOf(j, d, p, q, ru);
    TightIsRare(j, d, (d - 1) / 8, k, m, TWO24 - ru, j * d, j * j * d);
    if Tight(d, TWO24 - ru) {
      RareGuessIs(j, d);
      RareIsClose(d, p);
    }
  }

  /** Both steps near the end, and what the first division leaves. */
  lemma Shortfall(r0: nat, a: U32, d: nat, p: nat) returns (q: nat, ru: nat)
    requires 1 <= d <= LAST && a == TWO32 - 256 * d && p < 379000000 && r0 * a == TWO47 - 128 * (p + 1)
    ensures r0 * p == TWO24 * q + ru && ru < TWO24
    ensures Improved(r0, p) * a >= TWO63 - TWO33 || Tight(d, TWO24 - ru)
  {
    var s, rs, v, rv;
    q, ru, s, rs, v, rv := Parts(r0, a, p);
    SmallSquare(p);
    FineSteps(r0, a, p, q, ru, s, rs, v, rv);
    CloseUnlessTight(a, d, ru, (TWO16 * r0 + q + v) * a);
  }

  lemma SmallSquare(p: nat)
    requires p < 379000000
    ensures p * p <= TWO57
  {
    ProductOrder(p, 379000000, p, 379000000);
  }

  lemma Halve(r0: int, d: int, p: int)
    requires r0 * (TWO32 - 256 * d) == TWO47 - 128 * (p + 1)
    ensures p == TWO40 - 1 - 2 * (r0 * (TWO24 - d))
  {
    assert r0 * (TWO32 - 256 * d) == 256 * (r0 * (TWO24 - d)) by {
      Associate(r0, 256, TWO24 - d);
      Associate(256, r0, TWO24 - d);
    }
  }
}
