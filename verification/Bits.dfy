/** Shifts of unbounded integers: `Scale` shifts left, `Shr` shifts right, `Low` masks. */
module Bits {

  /** `x * 2^k`. */
  function Scale(x: int, k: nat): int {
    if k == 0 then x else 2 * Scale(x, k - 1)
  }

  /** `x / 2^k`, rounded down. */
  function Shr(x: int, k: nat): int {
    if k == 0 then x else Shr(x, k - 1) / 2
  }

  /** `x mod 2^k`. */
  function Low(x: int, k: nat): int {
    x - Scale(Shr(x, k), k)
  }

  lemma {:induction false} ScaleAdd(x: int, y: int, k: nat)
    ensures Scale(x + y, k) == Scale(x, k) + Scale(y, k)
  {
    if k == 0 {
    } else {
      ScaleAdd(x, y, k - 1);
    }
  }

  lemma {:induction false} ScaleScale(x: int, j: nat, k: nat)
    ensures Scale(Scale(x, j), k) == Scale(x, j + k)
  {
    if k == 0 {
    } else {
      ScaleScale(x, j, k - 1);
    }
  }

  lemma {:induction false} ScaleOrder(x: int, y: int, k: nat)
    ensures x < y <==> Scale(x, k) < Scale(y, k)
    ensures x == y <==> Scale(x, k) == Scale(y, k)
  {
    if k == 0 {
    } else {
      ScaleOrder(x, y, k - 1);
    }
  }

  lemma {:induction false} ScaleZero(k: nat)
    ensures Scale(0, k) == 0 && Scale(1, k) > 0
  {
    if k == 0 {
    } else {
      ScaleZero(k - 1);
    }
  }

  lemma {:induction false} ScaleDouble(x: int, k: nat)
    ensures Scale(2 * x, k) == 2 * Scale(x, k)
  {
    if k == 0 {
    } else {
      ScaleDouble(x, k - 1);
    }
  }

  lemma {:induction false} ScaleProduct(x: int, k: nat)
    ensures Scale(x, k) == x * Scale(1, k)
  {
    if k == 0 {
    } else {
      ScaleProduct(x, k - 1);
    }
  }

  /** A quotient and remainder determine the shift and the mask. */
  lemma {:induction false} ShrUnique(x: int, k: nat, q: int, r: int)
    requires x == Scale(q, k) + r && 0 <= r < Scale(1, k)
    ensures Shr(x, k) == q && Low(x, k) == r
  {
    if k > 0 {
      var h := Scale(1, k - 1);
      ScaleDouble(q, k - 1);
      if r < h {
        ShrUnique(x, k - 1, 2 * q, r);
      } else {
        ScaleAdd(2 * q, 1, k - 1);
        ShrUnique(x, k - 1, 2 * q + 1, r - h);
      }
    }
  }

  lemma {:induction false} LowBounds(x: int, k: nat)
    ensures x == Scale(Shr(x, k), k) + Low(x, k)
    ensures 0 <= Low(x, k) < Scale(1, k)
  {
    if k == 0 {
    } else {
      LowBounds(x, k - 1);
      var y := Shr(x, k - 1);
      ScaleDouble(y / 2, k - 1);
      if y % 2 == 1 { ScaleAdd(2 * (y / 2), 1, k - 1); }
    }
  }

  /** Multiples of the unit pass through a cut. */
  lemma CutSum(y: int, x: int, k: nat)
    ensures Shr(Scale(y, k) + x, k) == y + Shr(x, k)
    ensures Low(Scale(y, k) + x, k) == Low(x, k)
  {
    LowBounds(x, k);
    ScaleAdd(y, Shr(x, k), k);
    ShrUnique(Scale(y, k) + x, k, y + Shr(x, k), Low(x, k));
  }

  lemma ShrOrder(x: int, y: int, k: nat)
    ensures Scale(y, k) <= x <==> y <= Shr(x, k)
  {
    LowBounds(x, k);
    var q := Shr(x, k);
    ScaleOrder(q, y, k);
    ScaleOrder(q + 1, y, k);
    ScaleAdd(q, 1, k);
  }

  lemma {:induction false} ShrShr(x: int, j: nat, k: nat)
    ensures Shr(Shr(x, j), k) == Shr(x, j + k)
  {
    if k == 0 {
    } else {
      ShrShr(x, j, k - 1);
    }
  }

  lemma {:induction false} ShrOfSmall(x: int, k: nat)
    requires 0 <= x < Scale(1, k)
    ensures Shr(x, k) == 0 && Low(x, k) == x
  {
    ScaleZero(k);
    ShrUnique(x, k, 0, x);
  }

  lemma NonNegative(x: int, k: nat)
    ensures x >= 0 <==> Shr(x, k) >= 0
    ensures x >= 0 <==> Scale(x, k) >= 0
  {
    ScaleZero(k);
    ShrOrder(x, 0, k);
    ScaleOrder(x, 0, k);
  }

  /** Cutting in two steps: the mask splits at the inner cut. */
  lemma CutTwice(lo: int, x: int, j: nat, k: nat)
    requires 0 <= lo < Scale(1, j)
    ensures Shr(lo + Scale(x, j), j + k) == Shr(x, k)
    ensures Low(lo + Scale(x, j), j + k) == lo + Scale(Low(x, k), j)
  {
    var u := lo + Scale(x, j);
    ShrUnique(u, j, x, lo);
    ShrShr(u, j, k);
    LowBounds(x, k);
    ScaleAdd(Scale(Shr(x, k), k), Low(x, k), j);
    ScaleScale(Shr(x, k), k, j);
  }

  /** Comparing a number that ends in `lo` with a multiple of the unit. */
  lemma CompareScaled(t: int, lo: int, h: int, k: nat)
    requires 0 <= lo < Scale(1, k)
    ensures lo + Scale(t, k) > Scale(h, k) <==> t > h || (t == h && lo > 0)
    ensures lo + Scale(t, k) == Scale(h, k) <==> t == h && lo == 0
  {
    ScaleOrder(t, h, k);
    ScaleOrder(t + 1, h, k);
    ScaleAdd(t, 1, k);
  }

  // Widths that occur in the formats.
  const WORD_BITS: nat := 32
  const FRACTION_BITS: nat := 112
  const PATTERN_BITS: nat := 128

  lemma ScaleWord(x: int)
    ensures Scale(x, WORD_BITS) == 0x1_0000_0000 * x
  {
    Scale16(x);
    Scale16(Scale(x, 16));
    ScaleScale(x, 16, 16);
  }

  lemma ScaleFraction(x: int)
    ensures Scale(x, FRACTION_BITS) == 0x1_0000_0000_0000_0000_0000_0000_0000 * x
  {
    Scale96(x);
    Scale16(Scale(x, 96));
    ScaleScale(x, 96, 16);
  }

  lemma ScalePattern(x: int)
    ensures Scale(x, PATTERN_BITS) == 0x1_0000_0000_0000_0000_0000_0000_0000_0000 * x
  {
    Scale96(x);
    ScaleWord(Scale(x, 96));
    ScaleScale(x, 96, 32);
  }

  lemma Scale96(x: int)
    ensures Scale(x, 96) == 0x1_0000_0000_0000_0000_0000_0000 * x
  {
    ScaleWord(x);
    ScaleWord(Scale(x, 32));
    ScaleScale(x, 32, 32);
    ScaleWord(Scale(x, 64));
    ScaleScale(x, 64, 32);
  }

  lemma Scale16(x: int)
    ensures Scale(x, 16) == 0x1_0000 * x
  {
    Scale4(x);
    Scale4(Scale(x, 4));
    ScaleScale(x, 4, 4);
    Scale4(Scale(x, 8));
    ScaleScale(x, 8, 4);
    Scale4(Scale(x, 12));
    ScaleScale(x, 12, 4);
  }

  lemma Scale4(x: int)
    ensures Scale(x, 4) == 16 * x
  {
    assert Scale(x, 1) == 2 * x;
    assert Scale(x, 2) == 4 * x;
    assert Scale(x, 3) == 8 * x;
  }
}
