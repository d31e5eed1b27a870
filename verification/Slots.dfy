/** Slot masks: population count and rank by bit tricks (lib/uwb_rng/src/slots.c). */
module Slots {

  // ----- Bits of a number -----

  function Pow2(k: nat): (r: nat)
    ensures r > 0
  {
    if k == 0 then 1 else 2 * Pow2(k - 1)
  }

  predicate Bit(n: nat, p: nat) {
    if p == 0 then n % 2 == 1 else Bit(n / 2, p - 1)
  }

  /** Bitwise and. */
  function And(a: nat, b: nat): nat {
    if a == 0 then 0 else 2 * And(a / 2, b / 2) + if a % 2 == 1 && b % 2 == 1 then 1 else 0
  }

  /** The number of set bits. */
  function PopCount(n: nat): nat {
    if n == 0 then 0 else n % 2 + PopCount(n / 2)
  }

  /** The number of set bits below position `p`. */
  function Rank(n: nat, p: nat): nat {
    if p == 0 then 0 else n % 2 + Rank(n / 2, p - 1)
  }

  /** The positions of the set bits among the first `k`: the independent meaning of a mask. */
  function SetBits(n: nat, k: nat): set<nat> { set p | 0 <= p < k && Bit(n, p) }

  lemma {:induction false} AndBit(a: nat, b: nat, p: nat)
    ensures Bit(And(a, b), p) <==> Bit(a, p) && Bit(b, p)
    decreases p
  {
    if a == 0 {
      NoBits(p);
    } else {
      Halves(a, b);
      if p > 0 { AndBit(a / 2, b / 2, p - 1); }
    }
  }

  lemma {:induction false} NoBits(p: nat)
    ensures !Bit(0, p)
  {
    if p == 0 {
    } else {
      NoBits(p - 1);
    }
  }

  lemma Halves(a: nat, b: nat)
    requires a > 0
    ensures And(a, b) / 2 == And(a / 2, b / 2)
    ensures And(a, b) % 2 == if a % 2 == 1 && b % 2 == 1 then 1 else 0
  {}

  lemma {:induction false} RankIsCount(n: nat, k: nat)
    ensures |SetBits(n, k)| == Rank(n, k)
    decreases k
  {
    if k > 0 {
      RankIsCount(n, k - 1);
      RankNext(n, k - 1);
      var s := SetBits(n, k - 1);
      assert SetBits(n, k) == if Bit(n, k - 1) then s + {k - 1} else s;
    }
  }

  lemma {:induction false} RankNext(n: nat, p: nat)
    ensures Rank(n, p + 1) == Rank(n, p) + if Bit(n, p) then 1 else 0
    decreases p
  {
    if p > 0 { RankNext(n / 2, p - 1); } else { assert Rank(n, 1) == n % 2 + Rank(n / 2, 0); }
  }

  lemma {:induction false} PopCountIsRank(n: nat, k: nat)
    requires n < Pow2(k)
    ensures PopCount(n) == Rank(n, k)
    decreases k
  {
    if k == 0 {
    } else {
      PopCountIsRank(n / 2, k - 1);
      if n == 0 { assert PopCount(0 / 2) == 0; }
    }
  }

  /** The population count is the number of set positions. */
  lemma PopCountIsCount(n: nat, k: nat)
    requires n < Pow2(k)
    ensures PopCount(n) == |SetBits(n, k)|
  {
    RankIsCount(n, k);
    PopCountIsRank(n, k);
  }

  // ----- The loops -----

  /** Kernighan's step removes one set bit. */
  lemma {:induction false} KernighanStep(n: nat)
    requires n > 0
    ensures PopCount(And(n, n - 1)) == PopCount(n) - 1 && And(n, n - 1) < n
  {
    var m := And(n, n - 1);
    Halves(n, n - 1);
    if n % 2 == 1 {
      assert (n - 1) / 2 == n / 2 && m % 2 == 0;
      AndSelf(n / 2);
      assert m == 2 * (n / 2);
      assert m == 0 || PopCount(m) == m % 2 + PopCount(m / 2);
    } else {
      assert (n - 1) / 2 == n / 2 - 1 && m % 2 == 0;
      KernighanStep(n / 2);
      assert m == 0 || PopCount(m) == m % 2 + PopCount(m / 2);
    }
  }

  lemma {:induction false} AndSelf(n: nat)
    ensures And(n, n) == n
  {
    if n == 0 {
    } else {
      AndSelf(n / 2);
    }
  }

  /** `NumberOfBits`. */
  method NumberOfBits(mask: nat) returns (count: nat)
    ensures count == PopCount(mask)
  {
    var n := mask;
    count := 0;
    while n != 0
      invariant count + PopCount(n) == PopCount(mask)
      decreases n
    {
      KernighanStep(n);
      n := And(n, n - 1);
      count := count + 1;
    }
  }

  /** `BitPosition`: the position of a single set bit, counted from 1. */
  method BitPosition(bit: nat, ghost p: nat) returns (count: nat)
    requires bit == Pow2(p)
    ensures count == p + 1
  {
    var n := bit;
    count := 0;
    while n != 0
      invariant count <= p ==> n == Pow2(p - count)
      invariant count <= p + 1 && (count == p + 1 ==> n == 0)
      decreases n
    {
      n := n / 2;
      count := count + 1;
    }
  }

  lemma {:induction false} AndOnes(n: nat, k: nat)
    ensures PopCount(And(n, Pow2(k) - 1)) == Rank(n, k)
    decreases k
  {
    if n == 0 {
      RankOfZero(k);
    } else if k == 0 {
      AndZero(n);
    } else {
      var ones := Pow2(k) - 1;
      assert ones / 2 == Pow2(k - 1) - 1 && ones % 2 == 1;
      Halves(n, ones);
      AndOnes(n / 2, k - 1);
      var m := And(n, ones);
      assert m == 0 || PopCount(m) == m % 2 + PopCount(m / 2);
      assert m == 0 ==> m / 2 == 0 && m % 2 == 0;
    }
  }

  lemma {:induction false} RankOfZero(k: nat)
    ensures Rank(0, k) == 0
  {
    if k == 0 {
    } else {
      RankOfZero(k - 1);
    }
  }

  lemma {:induction false} AndZero(n: nat)
    ensures And(n, 0) == 0
  {
    if n == 0 {
    } else {
      AndZero(n / 2);
    }
  }

  /** `BitIndex` in mode `SLOT_POSITION`: how many requested slots come before this one. */
  method BitIndex(mask: nat, bit: nat, ghost p: nat) returns (index: nat)
    requires bit == Pow2(p) && Bit(mask, p)
    ensures index == Rank(mask, p)
  {
    var position := BitPosition(bit, p);
    var slotMask := Pow2(position) - 1;
    AndOnes(mask, p + 1);
    RankNext(mask, p);
    var n := NumberOfBits(And(mask, slotMask));
    index := n - 1;
  }

  // ----- The rank orders the requested slots -----

  lemma {:induction false} RankMonotone(n: nat, p: nat, q: nat)
    requires p <= q
    ensures Rank(n, p) <= Rank(n, q)
    decreases q - p
  {
    if p >= q {
    } else {
      RankMonotone(n, p, q - 1);
      RankNext(n, q - 1);
    }
  }

  /** Strictly increasing on set bits, and below the count. */
  lemma RankIncreases(n: nat, p: nat, q: nat)
    requires p < q && Bit(n, p)
    ensures Rank(n, p) < Rank(n, q)
  {
    RankNext(n, p);
    RankMonotone(n, p + 1, q);
  }

  /** Every number below the count is the rank of a set bit. */
  lemma {:induction false} RankOnto(n: nat, k: nat, r: nat) returns (p: nat)
    requires r < Rank(n, k)
    ensures p < k && Bit(n, p) && Rank(n, p) == r
    decreases k
  {
    RankNext(n, k - 1);
    if r < Rank(n, k - 1) {
      p := RankOnto(n, k - 1, r);
    } else {
      p := k - 1;
    }
  }

  predicate HasRank(n: nat, k: nat, r: nat) { exists p :: 0 <= p < k && Bit(n, p) && Rank(n, p) == r }

  /** The rank is an increasing bijection from the set bits of a mask onto the numbers below its population count. */
  lemma RankBijection(n: nat, k: nat)
    requires n < Pow2(k)
    ensures forall p :: 0 <= p < k && Bit(n, p) ==> Rank(n, p) < PopCount(n)
    ensures forall p, q :: 0 <= p < q < k && Bit(n, p) && Bit(n, q) ==> Rank(n, p) < Rank(n, q)
    ensures forall r :: 0 <= r < PopCount(n) ==> HasRank(n, k, r)
  {
    PopCountIsRank(n, k);
    forall p | 0 <= p < k && Bit(n, p) ensures Rank(n, p) < PopCount(n) {
      RankIncreases(n, p, k);
    }
    forall p, q | 0 <= p < q < k && Bit(n, p) && Bit(n, q) ensures Rank(n, p) < Rank(n, q) {
      RankIncreases(n, p, q);
    }
    forall r | 0 <= r < PopCount(n) ensures HasRank(n, k, r) {
      var p := RankOnto(n, k, r);
      assert Bit(n, p) && Rank(n, p) == r;
    }
  }
}
