/**
 `f128M_roundToInt` on four words (the build without fast 64-bit integers): a search for
 the word that holds the cut, rounding inside that word, and a carry chain above it.
 */
module F128RoundToInt {
  import opened Bits
  import opened Float128

  predicate Nearest(mode: Mode) { mode.NearEven? || mode.NearMaxMag? }

  // ----- The cut seen from the word that holds it -----

  /** Whether the word goes up, from its own bits below the cut, a flag for lower words, and the parity above. */
  ghost predicate WordGoesUp(t: int, h: int, extra: bool, odd: bool, negative: bool, mode: Mode) {
    match mode
    case MinMag => false
    case Min => negative && (t != 0 || extra)
    case Max => !negative && (t != 0 || extra)
    case NearEven => t > h || (t == h && (extra || odd))
    case NearMaxMag => t >= h
  }

  /** The part of the cut word that decides a tie. */
  ghost function Half(k: nat): int { if k > 0 then Scale(1, k - 1) else 0 }

  /** The bit above the cut. */
  ghost predicate OddAbove(s: seq<Word>, j: nat, k: nat)
    requires j < |s|
  {
    if k < 32 then Shr(s[j], k) % 2 == 1 else Range(s, j + 1, |s|) % 2 == 1
  }

  /** What the cut word and the carry out of it become, in units of the word. */
  ghost function CutWord(s: seq<Word>, j: nat, k: nat, extra: bool, negative: bool, mode: Mode): int
    requires j < |s|
  {
    CutNumber(s[j], k, extra, OddAbove(s, j, k), negative, mode)
  }

  ghost function CutNumber(a: int, k: nat, extra: bool, odd: bool, negative: bool, mode: Mode): int {
    Scale(Shr(a, k) + Up(WordGoesUp(Low(a, k), Half(k), extra, odd, negative, mode)), k)
  }

  lemma SplitAt(s: seq<Word>, j: nat)
    requires j < |s|
    ensures Val(s) == Range(s, 0, j) + Scale(s[j] + W * Range(s, j + 1, |s|), 32 * j)
    ensures 0 <= Range(s, 0, j) < Scale(1, 32 * j)
    ensures Range(s, j + 1, |s|) >= 0
  {
    RangeSplit(s, 0, j, |s|);
    RangeBound(s, 0, j);
    RangeBound(s, j + 1, |s|);
  }

  /** Cutting a word and what is above it. */
  lemma CutAboveWord(a: Word, hi: nat, k: nat)
    requires k <= 32
    ensures Shr(a + W * hi, k) == Shr(a, k) + Scale(hi, WORD_BITS - k)
    ensures Low(a + W * hi, k) == Low(a, k)
    ensures (Shr(a, k) + Scale(hi, WORD_BITS - k)) % 2 == if k < 32 then Shr(a, k) % 2 else hi % 2
  {
    ScaleWord(hi);
    ScaleScale(hi, WORD_BITS - k, k);
    CutSum(Scale(hi, WORD_BITS - k), a, k);
    ParityAbove(a, hi, k);
  }

  lemma ParityAbove(a: Word, hi: nat, k: nat)
    requires k <= 32
    ensures (Shr(a, k) + Scale(hi, WORD_BITS - k)) % 2 == if k < 32 then Shr(a, k) % 2 else hi % 2
  {
    if k == 32 {
      assert Shr(a, k) == 0 by { ScaleWord(1); ShrOfSmall(a, WORD_BITS); }
      assert Scale(hi, 0) == hi;
    } else {
      PlusEven(Shr(a, k), Scale(hi, WORD_BITS - k), Scale(hi, WORD_BITS - k - 1));
    }
  }

  lemma PlusEven(q: int, x: int, y: int)
    requires x == 2 * y
    ensures (q + x) % 2 == q % 2
  {}

  /**
   Rounding the whole pattern is rounding one word: the lower words become zero and the
   upper words are added unchanged.
   */
  lemma RoundInWord(s: seq<Word>, j: nat, k: nat, negative: bool, mode: Mode)
    requires j < |s| && k <= 32 && 32 * j + k > 0 && (Nearest(mode) ==> k > 0)
    ensures RoundPattern(Val(s), 32 * j + k, negative, mode)
         == Scale(CutWord(s, j, k, Range(s, 0, j) != 0, negative, mode) + W * Range(s, j + 1, |s|), 32 * j)
    ensures Low(Val(s), 32 * j + k) == 0 <==> Low(s[j], k) == 0 && Range(s, 0, j) == 0
  {
    var lo, hi, top, odd := Parts(s, j, k);
    RoundSplit(Val(s), lo, s[j], hi, top, j, k, odd, negative, mode);
  }

  /** The numbers below and above the cut word. */
  lemma Parts(s: seq<Word>, j: nat, k: nat) returns (lo: nat, hi: nat, top: int, odd: bool)
    requires j < |s|
    ensures lo == Range(s, 0, j) && hi == Range(s, j + 1, |s|) && odd == OddAbove(s, j, k)
    ensures lo < Scale(1, 32 * j) && top == s[j] + W * hi && Val(s) == lo + Scale(top, 32 * j)
    ensures odd <==> if k < 32 then Shr(s[j], k) % 2 == 1 else hi % 2 == 1
  {
    SplitAt(s, j);
    lo, hi, odd := Range(s, 0, j), Range(s, j + 1, |s|), OddAbove(s, j, k);
    top := s[j] + W * hi;
  }

  lemma RoundSplit(u: int, lo: nat, a: Word, hi: nat, top: int, j: nat, k: nat, odd: bool, negative: bool, mode: Mode)
    requires k <= 32 && 32 * j + k > 0 && (Nearest(mode) ==> k > 0)
    requires lo < Scale(1, 32 * j) && top == a + W * hi && u == lo + Scale(top, 32 * j)
    requires odd <==> if k < 32 then Shr(a, k) % 2 == 1 else hi % 2 == 1
    ensures RoundPattern(u, 32 * j + k, negative, mode)
         == Scale(CutNumber(a, k, lo != 0, odd, negative, mode) + W * hi, 32 * j)
    ensures Low(u, 32 * j + k) == 0 <==> Low(a, k) == 0 && lo == 0
  {
    RoundInNumber(u, lo, a, hi, j, k, odd, negative, mode);
  }

  lemma RoundInNumber(u: int, lo: nat, a: Word, hi: nat, j: nat, k: nat, odd: bool, negative: bool, mode: Mode)
    requires k <= 32 && 32 * j + k > 0 && (Nearest(mode) ==> k > 0)
    requires lo < Scale(1, 32 * j) && u == lo + Scale(a + W * hi, 32 * j)
    requires odd <==> if k < 32 then Shr(a, k) % 2 == 1 else hi % 2 == 1
    ensures RoundPattern(u, 32 * j + k, negative, mode)
         == Scale(CutNumber(a, k, lo != 0, odd, negative, mode) + W * hi, 32 * j)
    ensures Low(u, 32 * j + k) == 0 <==> Low(a, k) == 0 && lo == 0
  {
    var p, t := 32 * j + k, Low(a, k);
    CutTwice(lo, a + W * hi, 32 * j, k);
    CutAboveWord(a, hi, k);
    RestInWord(t, lo, j, k);
    SameDecision(Shr(u, p), Low(u, p), Scale(1, p - 1), t, Half(k), lo, odd, negative, mode);
    Regroup(Shr(a, k) + Up(WordGoesUp(t, Half(k), lo != 0, odd, negative, mode)), hi, j, k);
  }

  /** The bits below the cut, compared with nothing and with half a unit. */
  lemma RestInWord(t: int, lo: int, j: nat, k: nat)
    requires 0 <= lo < Scale(1, 32 * j)
    ensures lo + Scale(t, 32 * j) == 0 <==> t == 0 && lo == 0
    ensures k > 0 ==>
              && (lo + Scale(t, 32 * j) > Scale(1, 32 * j + k - 1) <==> t > Half(k) || (t == Half(k) && lo > 0))
              && (lo + Scale(t, 32 * j) == Scale(1, 32 * j + k - 1) <==> t == Half(k) && lo == 0)
  {
    ScaleZero(32 * j);
    CompareScaled(t, lo, 0, 32 * j);
    if k > 0 {
      CompareScaled(t, lo, Half(k), 32 * j);
      ScaleScale(1, k - 1, 32 * j);
    }
  }

  lemma SameDecision(q: int, r: int, half: int, t: int, h: int, lo: nat, odd: bool, negative: bool, mode: Mode)
    requires r == 0 <==> t == 0 && lo == 0
    requires Nearest(mode) ==> (r > half <==> t > h || (t == h && lo > 0)) && (r == half <==> t == h && lo == 0)
    requires q % 2 == 1 <==> odd
    ensures GoesUp(q, r, half, negative, mode) == WordGoesUp(t, h, lo != 0, odd, negative, mode)
  {}

  lemma Regroup(n: int, hi: int, j: nat, k: nat)
    requires k <= 32
    ensures Scale(n + Scale(hi, WORD_BITS - k), 32 * j + k) == Scale(Scale(n, k) + W * hi, 32 * j)
  {
    ScaleScale(n + Scale(hi, WORD_BITS - k), k, 32 * j);
    ScaleAdd(n, Scale(hi, WORD_BITS - k), k);
    ScaleScale(hi, WORD_BITS - k, k);
    ScaleWord(hi);
  }

  // ----- Rounding inside the word -----

  lemma AddWithCarry(a: Word, x: Word, z: Word, carry: nat)
    requires x > 0 && z == (a + x) % W && carry == (if z < a then 1 else 0)
    ensures z + W * carry == a + x
  {}

  lemma BitFits(k: nat)
    requires k < 32
    ensures 0 < Scale(1, k) < W
  {
    ScaleZero(k);
    ScaleScale(1, k, WORD_BITS - 1 - k);
    Doubles(Scale(1, k), WORD_BITS - 1 - k);
    ScaleWord(1);
    assert Scale(1, WORD_BITS) == 2 * Scale(1, WORD_BITS - 1);
  }

  lemma {:induction false} Doubles(x: int, k: nat)
    requires x > 0
    ensures Scale(x, k) >= x
  {
    if k == 0 {
    } else {
      Doubles(x, k - 1);
    }
  }

  /** Dropping low bits of a sum that carried out of the word. */
  lemma DropLow(z: int, carry: int, k: nat, n: int, r: int)
    requires k <= 32 && z + W * carry == Scale(n, k) + r && 0 <= r < Scale(1, k)
    ensures Scale(Shr(z, k), k) + W * carry == Scale(n, k)
    ensures Low(z, k) == r
    ensures Shr(z, k) == n - Scale(carry, WORD_BITS - k)
  {
    ScaleWord(carry);
    ScaleScale(carry, WORD_BITS - k, k);
    CutSum(Scale(carry, WORD_BITS - k), z, k);
    ShrUnique(Scale(n, k) + r, k, n, r);
    ScaleAdd(Shr(z, k), Scale(carry, WORD_BITS - k), k);
    LowBounds(z, k);
  }

  /** Adding half a unit and dropping the low bits rounds to nearest, ties up; the tie shows as zero low bits. */
  lemma NearInWord(a: Word, k: nat, z: Word, carry: nat)
    requires 1 <= k <= 32
    requires z == (a + Scale(1, k - 1)) % W && carry == (if z < a then 1 else 0)
    ensures Scale(Shr(z, k), k) + W * carry == Scale(Shr(a, k) + Up(Low(a, k) >= Scale(1, k - 1)), k)
    ensures Low(z, k) == 0 <==> Low(a, k) == Scale(1, k - 1)
    ensures Shr(z, k) == Shr(a, k) + Up(Low(a, k) >= Scale(1, k - 1)) - Scale(carry, WORD_BITS - k)
  {
    var h := Scale(1, k - 1);
    BitFits(k - 1);
    AddWithCarry(a, h, z, carry);
    LowBounds(a, k);
    var (q, t) := (Shr(a, k), Low(a, k));
    ScaleAdd(q, 1, k);
    if t >= h { DropLow(z, carry, k, q + 1, t - h); } else { DropLow(z, carry, k, q, t + h); }
  }

  /** Clears bit `k`. */
  function ClearBit(z: int, k: nat): int {
    if Shr(z, k) % 2 == 1 then z - Scale(1, k) else z
  }

  /** Clearing the lowest kept bit turns a tie that went up into a tie to even. */
  lemma TieToEven(a: Word, k: nat, z: Word, carry: nat)
    requires 1 <= k < 32 && z == (a + Scale(1, k - 1)) % W && carry == (if z < a then 1 else 0)
    requires Low(a, k) == Scale(1, k - 1)
    ensures 0 <= ClearBit(z, k) < W && Low(ClearBit(z, k), k) == 0
    ensures Scale(Shr(ClearBit(z, k), k), k) + W * carry == Scale(Shr(a, k) + Up(Shr(a, k) % 2 == 1), k)
  {
    NearInWord(a, k, z, carry);
    var (q, n) := (Shr(a, k), Shr(z, k));
    TieNumbers(q, n, carry, k);
    Cleared(z, k, n);
    ScaleAdd(q, 1, k);
    if n % 2 == 1 { ScaleAdd(n - 1, 1, k); }
  }

  /** A word whose bits below `k` are zero, with bit `k` cleared. */
  lemma Cleared(z: Word, k: nat, n: int)
    requires n == Shr(z, k) && Low(z, k) == 0
    ensures 0 <= ClearBit(z, k) < W && Low(ClearBit(z, k), k) == 0
    ensures Shr(ClearBit(z, k), k) == n - n % 2
  {
    LowBounds(z, k);
    ScaleZero(k);
    NonNegative(z, k);
    if n % 2 == 1 {
      ScaleAdd(n - 1, 1, k);
      ShrUnique(z - Scale(1, k), k, n - 1, 0);
      NonNegative(n - 1, k);
    }
  }

  /** A directed rounding adds a whole unit. */
  lemma UpInWord(a: Word, k: nat, z: Word, carry: nat)
    requires k < 32 && z == (a + Scale(1, k)) % W && carry == (if z < a then 1 else 0)
    ensures Scale(Shr(z, k), k) + W * carry == Scale(Shr(a, k) + 1, k)
  {
    BitFits(k);
    AddWithCarry(a, Scale(1, k), z, carry);
    LowBounds(a, k);
    ScaleAdd(Shr(a, k), 1, k);
    DropLow(z, carry, k, Shr(a, k) + 1, Low(a, k));
  }

  lemma TieNumbers(q: int, n: int, carry: int, k: nat)
    requires 1 <= k < 32 && n == q + 1 - Scale(carry, WORD_BITS - k)
    ensures n % 2 == (q + 1) % 2
  {
    assert Scale(carry, WORD_BITS - k) == 2 * Scale(carry, WORD_BITS - 1 - k);
  }

  lemma KeptPart(z: Word, k: nat)
    ensures 0 <= z - Low(z, k) == Scale(Shr(z, k), k) <= z
  {
    LowBounds(z, k);
    NonNegative(z, k);
    NonNegative(Shr(z, k), k);
  }

  lemma TieAtTopBit(a: Word, z: Word, carry: nat)
    requires z == (a + Scale(1, WORD_BITS - 1)) % W && carry == (if z < a then 1 else 0) && Low(z, WORD_BITS) == 0
    ensures z == 0 && carry == 1
  {
    ScaleWord(1);
    assert Scale(1, WORD_BITS) == 2 * Scale(1, WORD_BITS - 1);
    ShrOfSmall(z, WORD_BITS);
  }

  /** Nearest modes.  After `tieAbove` the bit that decides and must be made even is in the next word. */
  method RoundNear(wordA: Word, bitPos: nat, extra: bool, mode: Mode)
    returns (wordZ: Word, carry: nat, tieAbove: bool)
    requires bitPos < 32 && Nearest(mode)
    ensures carry <= 1
    ensures
      var k := bitPos + 1;
      var (q, t) := (Shr(wordA, k), Low(wordA, k));
      && (tieAbove <==> mode.NearEven? && k == 32 && !extra && t == Half(k))
      && (tieAbove ==> wordZ == 0 && carry == 1)
      && (!tieAbove ==> wordZ + W * carry == CutNumber(wordA, k, extra, k < 32 && q % 2 == 1, false, mode))
  {
    var bit, k := Scale(1, bitPos), bitPos + 1;
    wordZ := (wordA + bit) % W;
    carry := if wordZ < wordA then 1 else 0;
    NearInWord(wordA, k, wordZ, carry);
    tieAbove := false;
    if mode.NearEven? && !extra && Low(wordZ, k) == 0 {
      if k == 32 {
        TieAtTopBit(wordA, wordZ, carry);
        tieAbove := true;
        return;
      }
      TieToEven(wordA, k, wordZ, carry);
      wordZ := ClearBit(wordZ, k);
    }
    KeptPart(wordZ, k);
    wordZ := wordZ - Low(wordZ, k);
  }

  /** Directed modes and truncation. */
  method RoundDirected(wordA: Word, bitPos: nat, extra: bool, negative: bool, mode: Mode)
    returns (wordZ: Word, carry: nat)
    requires bitPos < 32 && !Nearest(mode)
    ensures carry <= 1
    ensures wordZ + W * carry == CutNumber(wordA, bitPos, extra, false, negative, mode)
  {
    var bit := Scale(1, bitPos);
    wordZ, carry := wordA, 0;
    if extra || Low(wordA, bitPos) != 0 {
      if mode == (if negative then Min else Max) {
        wordZ := (wordZ + bit) % W;
        carry := if wordZ < wordA then 1 else 0;
        UpInWord(wordA, bitPos, wordZ, carry);
      }
    }
    KeptPart(wordZ, bitPos);
    wordZ := wordZ - Low(wordZ, bitPos);
  }

  // ----- The carry chain -----

  /** Words below `i` of the result are done: they hold the rounded part `g` plus the upper words copied so far. */
  ghost predicate Propagated(z: seq<Word>, i: nat, s: seq<Word>, j: nat, carry: nat, g: int)
    requires j < i <= |z| && i <= |s|
  {
    Range(z, 0, i) + Scale(carry, 32 * i) == Scale(g + W * Range(s, j + 1, i), 32 * j)
  }

  lemma CarryStep(z: seq<Word>, i: nat, s: seq<Word>, j: nat, carry: nat, g: int, z': seq<Word>, carry': nat)
    requires j < i < |z| == |z'| && i < |s| && Propagated(z, i, s, j, carry, g)
    requires forall x :: 0 <= x < i ==> z'[x] == z[x]
    requires z'[i] + W * carry' == s[i] + carry
    ensures Propagated(z', i + 1, s, j, carry', g)
  {
    RangeSame(z, z', 0, i);
    RangeNext(z', 0, i);
    RangeNext(s, j + 1, i);
    CarryNumbers(g + W * Range(s, j + 1, i), j, i, z'[i], s[i], carry, carry');
  }

  lemma CarryNumbers(x: int, j: nat, i: nat, zi: int, si: int, carry: int, carry': int)
    requires j < i && zi + W * carry' == si + carry
    ensures Scale(x, 32 * j) - Scale(carry, 32 * i) + Scale(zi, 32 * i) + Scale(carry', 32 * (i + 1))
         == Scale(x + W * Scale(si, 32 * (i - j - 1)), 32 * j)
  {
    ScaleWord(carry');
    ScaleScale(carry', WORD_BITS, 32 * i);
    ScaleAdd(zi, W * carry', 32 * i);
    ScaleAdd(si, carry, 32 * i);
    ScaleWord(Scale(si, 32 * (i - j - 1)));
    ScaleScale(si, 32 * (i - j - 1), WORD_BITS);
    ScaleScale(si, 32 * (i - j), 32 * j);
    ScaleAdd(x, Scale(si, 32 * (i - j)), 32 * j);
  }

  lemma ChainStart(z: seq<Word>, s: seq<Word>, j: nat, carry: nat)
    requires j < |z| == |s| && (forall i :: 0 <= i < j ==> z[i] == 0)
    ensures Propagated(z, j + 1, s, j, carry, z[j] + W * carry)
  {
    RangeZero(z, 0, j);
    RangeNext(z, 0, j);
    ScaleWord(carry);
    ScaleScale(carry, WORD_BITS, 32 * j);
    ScaleAdd(z[j], W * carry, 32 * j);
  }

  /** The tie at bit 31: the next word takes the carry and is then made even. */
  lemma TieAboveStep(z: seq<Word>, s: seq<Word>, j: nat, w: Word)
    requires |z| == 4 && |s| == 4 && j < 3 && (forall i :: 0 <= i <= j ==> z[i] == 0)
    requires w == (s[j + 1] + 1) % W && z[j + 1] == w - w % 2
    ensures Propagated(z, j + 2, s, j, if w == 0 then 1 else 0, W * (Range(s, j + 1, 4) % 2))
  {
    var up := s[j + 1] % 2;
    assert Range(s, j + 1, 4) == s[j + 1] + W * Range(s, j + 2, 4);
    assert Range(s, j + 1, 4) % 2 == up;
    ChainStart(z, s, j, up);
    CarryStep(z, j + 1, s, j, up, W * up, z, if w == 0 then 1 else 0);
  }

  /** The final carry is zero: rounding stays inside the format. */
  lemma ChainEnd(z: seq<Word>, s: seq<Word>, p: nat, negative: bool, mode: Mode, carry: nat)
    requires |z| == 4 && |s| == 4 && Exponent(s) < 0x406F && 0 < p <= 112
    requires Val(z) + Scale(carry, 32 * |z|) == RoundPattern(Val(s), p, negative, mode)
    ensures Val(z) == RoundPattern(Val(s), p, negative, mode)
  {
    var u := Val(s);
    PatternFields(s);
    PatternBelow(u, p, negative, mode);
    assert 32 * |z| == PATTERN_BITS;
    ScalePattern(carry);
    RangeBound(z, 0, 4);
    NoCarryOut(Val(z), carry, RoundPattern(u, p, negative, mode));
  }

  lemma NoCarryOut(v: int, carry: nat, r: int)
    requires v >= 0 && v + 0x1_0000_0000_0000_0000_0000_0000_0000_0000 * carry == r
    requires r < 0x1_0000_0000_0000_0000_0000_0000_0000_0000
    ensures v == r
  {}

  lemma PatternBelow(u: int, p: nat, negative: bool, mode: Mode)
    requires 0 < p <= FRACTION_BITS
    ensures RoundPattern(u, p, negative, mode) <= u + TWO112
  {
    LowBounds(u, p);
    ScaleAdd(Shr(u, p), 1, p);
    AtFraction(1, p);
    Doubles1(FRACTION_BITS - p, p);
  }

  lemma Doubles1(k: nat, p: nat)
    ensures Scale(1, p) <= Scale(Scale(1, k), p)
  {
    ScaleZero(k);
    ScaleOrder(Scale(1, k), 1, p);
  }

  // ----- The routine -----

  ghost predicate ZeroWords(z: array<Word>, n: nat)
    requires n <= z.Length
    reads z
  {
    forall i :: 0 <= i < n ==> z[i] == 0
  }

  /** The search loop: clears the words wholly below the cut and remembers whether they held anything. */
  method FindCutWord(a: array<Word>, z: array<Word>, start: nat) returns (index: nat, bitPos: nat, extra: bool)
    requires a.Length == 4 && z.Length == 4 && start <= 112
    modifies z
    ensures index < 4 && bitPos < 32 && 32 * index + bitPos == start
    ensures ZeroWords(z, index) && forall i :: index <= i < 4 ==> z[i] == old(z[i]) && a[i] == old(a[i])
    ensures extra <==> exists i :: 0 <= i < index && old(a[..])[i] != 0
  {
    ghost var s := a[..];
    index, bitPos, extra := 0, start, false;
    while bitPos >= 32
      invariant index < 4 && 32 * index + bitPos == start
      invariant forall i :: index <= i < 4 ==> a[i] == old(a[i]) && z[i] == old(z[i])
      invariant ZeroWords(z, index)
      invariant extra <==> exists i :: 0 <= i < index && s[i] != 0
    {
      if a[index] != 0 { extra := true; }
      z[index] := 0;
      index := index + 1;
      bitPos := bitPos - 32;
    }
  }

  /** The cut word is rounded and stored; after a tie at bit 31 the next word too. */
  method RoundCutWord(a: array<Word>, z: array<Word>, j: nat, bitPos: nat, extra: bool, negative: bool, mode: Mode,
                      exact: bool, ghost s: seq<Word>)
    returns (index: nat, carry: nat, inexact: bool)
    requires a.Length == 4 && z.Length == 4 && |s| == 4 && j < 4 && bitPos < 32
    requires Nearest(mode) && bitPos == 31 ==> j < 3
    requires ZeroWords(z, j) && forall i :: j <= i < 4 ==> a[i] == s[i]
    modifies z
    ensures j < index <= 4 && carry <= 1 && forall i :: index <= i < 4 ==> a[i] == s[i]
    ensures
      var k := if Nearest(mode) then bitPos + 1 else bitPos;
      && Propagated(z[..], index, s, j, carry, CutWord(s, j, k, extra, negative, mode))
      && (inexact <==> exact && (extra || Low(s[j], k) != 0))
  {
    var wordZ, tieAbove := 0, false;
    if Nearest(mode) {
      inexact := exact && (extra || Low(a[j], bitPos + 1) != 0);
      wordZ, carry, tieAbove := RoundNear(a[j], bitPos, extra, mode);
    } else {
      inexact := exact && (extra || Low(a[j], bitPos) != 0);
      wordZ, carry := RoundDirected(a[j], bitPos, extra, negative, mode);
    }
    z[j] := wordZ;
    index := j + 1;
    assert forall i :: index <= i < 4 ==> a[i] == s[i];
    if tieAbove {
      wordZ := (a[index] + carry) % W;
      carry := if wordZ == 0 then carry else 0;
      z[index] := wordZ - wordZ % 2;
      index := index + 1;
      assert forall i :: index <= i < 4 ==> a[i] == s[i];
      StartTie(z[..], s, j, wordZ, bitPos + 1, negative, mode);
    } else {
      StartPlain(z[..], s, j, carry, if Nearest(mode) then bitPos + 1 else bitPos, extra, negative, mode);
    }
  }

  lemma StartTie(z: seq<Word>, s: seq<Word>, j: nat, w: Word, k: nat, negative: bool, mode: Mode)
    requires |z| == 4 && |s| == 4 && j < 3 && (forall i :: 0 <= i <= j ==> z[i] == 0)
    requires w == (s[j + 1] + 1) % W && z[j + 1] == w - w % 2
    requires mode.NearEven? && k == WORD_BITS && Low(s[j], k) == Half(k)
    ensures Propagated(z, j + 2, s, j, if w == 0 then 1 else 0, CutWord(s, j, k, false, negative, mode))
  {
    TieAboveStep(z, s, j, w);
    TieCutWord(s, j, k, negative, mode);
  }

  lemma StartPlain(z: seq<Word>, s: seq<Word>, j: nat, carry: nat, k: nat, extra: bool, negative: bool, mode: Mode)
    requires j < |z| == |s| && (forall i :: 0 <= i < j ==> z[i] == 0)
    requires k <= WORD_BITS && !(mode.NearEven? && k == WORD_BITS && !extra && Low(s[j], k) == Half(k))
    requires z[j] + W * carry
          == CutNumber(s[j], k, extra, Nearest(mode) && k < 32 && Shr(s[j], k) % 2 == 1,
                       !Nearest(mode) && negative, mode)
    ensures Propagated(z, j + 1, s, j, carry, CutWord(s, j, k, extra, negative, mode))
  {
    ChainStart(z, s, j, carry);
    PlainCutWord(s, j, k, extra, negative, mode);
  }

  lemma TieCutWord(s: seq<Word>, j: nat, k: nat, negative: bool, mode: Mode)
    requires j < |s| && mode.NearEven? && k == WORD_BITS && Low(s[j], k) == Half(k)
    ensures CutWord(s, j, k, false, negative, mode) == W * (Range(s, j + 1, |s|) % 2)
  {
    ScaleWord(Range(s, j + 1, |s|) % 2);
    ScaleWord(1);
    ShrOfSmall(s[j], WORD_BITS);
  }

  lemma PlainCutWord(s: seq<Word>, j: nat, k: nat, extra: bool, negative: bool, mode: Mode)
    requires j < |s| && k <= WORD_BITS
    requires !(mode.NearEven? && k == WORD_BITS && !extra && Low(s[j], k) == Half(k))
    ensures CutWord(s, j, k, extra, negative, mode)
         == CutNumber(s[j], k, extra, Nearest(mode) && k < 32 && Shr(s[j], k) % 2 == 1,
                      !Nearest(mode) && negative, mode)
  {}

  /** The carry chain: adds `carryIn` into the words from `start` up. */
  method Propagate(a: array<Word>, z: array<Word>, start: nat, carryIn: nat, ghost s: seq<Word>, ghost j: nat,
                   ghost g: int)
    returns (carry: nat)
    requires a.Length == 4 && z.Length == 4 && |s| == 4 && j < start <= 4 && carryIn <= 1
    requires forall i :: start <= i < 4 ==> a[i] == s[i]
    requires Propagated(z[..], start, s, j, carryIn, g)
    modifies z
    ensures Propagated(z[..], 4, s, j, carry, g)
  {
    var index := start;
    carry := carryIn;
    while index != 4
      invariant start <= index <= 4 && carry <= 1
      invariant forall i :: index <= i < 4 ==> a[i] == s[i]
      invariant Propagated(z[..], index, s, j, carry, g)
    {
      var wordZ := (a[index] + carry) % W;
      ghost var before := z[..];
      z[index] := wordZ;
      CarryStep(before, index, s, j, carry, g, z[..], if wordZ == 0 then carry else 0);
      carry := if wordZ == 0 then carry else 0;
      index := index + 1;
    }
  }

  /**
   The rounding loop as a whole, for numbers with an integer and a fraction part.  `z` may be
   the same array as `a`: every word of `a` is read before it is overwritten.
   */
  method RoundWords(a: array<Word>, mode: Mode, exact: bool, z: array<Word>) returns (inexact: bool)
    requires a.Length == 4 && z.Length == 4 && 0x3FFF <= Exponent(a[..]) < 0x406F
    modifies z
    ensures Val(z[..]) == RoundPattern(old(Val(a[..])), 0x406F - old(Exponent(a[..])), old(Negative(a[..])), mode)
    ensures inexact <==> exact && Low(old(Val(a[..])), 0x406F - old(Exponent(a[..]))) != 0
  {
    ghost var s := a[..];
    var negative := a[3] >= 0x8000_0000;
    var p := 0x406F - a[3] / 0x1_0000 % 0x8000;
    assert p == 0x406F - Exponent(s) && negative == Negative(s);
    var j, bitPos, extra := FindCutWord(a, z, if Nearest(mode) then p - 1 else p);
    ghost var k := if Nearest(mode) then bitPos + 1 else bitPos;
    assert p == 32 * j + k && k <= 32 && 0 < p <= 112;
    var index, carry, raised := RoundCutWord(a, z, j, bitPos, extra, negative, mode, exact, s);
    inexact := raised;
    assert inexact <==> exact && (extra || Low(s[j], k) != 0);
    carry := Propagate(a, z, index, carry, s, j, CutWord(s, j, k, extra, negative, mode));
    ChainComplete(z[..], s, j, k, p, extra, negative, mode, carry);
    assert Val(z[..]) == RoundPattern(Val(s), p, negative, mode);
  }

  lemma ChainComplete(z: seq<Word>, s: seq<Word>, j: nat, k: nat, p: nat, extra: bool, negative: bool, mode: Mode,
                      carry: nat)
    requires |z| == 4 && |s| == 4 && Exponent(s) < 0x406F && j < 4 && k <= 32 && p == 32 * j + k && 0 < p <= 112
    requires Nearest(mode) ==> k > 0
    requires extra <==> exists i :: 0 <= i < j && s[i] != 0
    requires Propagated(z, 4, s, j, carry, CutWord(s, j, k, extra, negative, mode))
    ensures Val(z) == RoundPattern(Val(s), p, negative, mode)
    ensures Low(Val(s), p) == 0 <==> !extra && Low(s[j], k) == 0
  {
    RangeZero(s, 0, j);
    RoundInWord(s, j, k, negative, mode);
    ChainEnd(z, s, p, negative, mode, carry);
  }

  // ----- Numbers below one -----

  lemma {:induction false} ScaleGrows(j: nat, k: nat)
    requires j <= k
    ensures Scale(1, j) <= Scale(1, k)
    decreases k
  {
    ScaleZero(j);
    if j >= k {
    } else {
      ScaleGrows(j, k - 1);
    }
  }

  /** Where a number below one lies relative to zero and one half. */
  lemma SmallMagnitude(w: seq<Word>)
    requires |w| == 4 && Exponent(w) < 0x3FFF
    ensures
      var (m, e, f) := (Magnitude(w), Exponent(w), Fraction(w));
      && 0.0 <= m < 1.0
      && (m == 0.0 <==> e == 0 && f == 0)
      && (m < 0.5 <==> e < 0x3FFE)
      && (m == 0.5 <==> e == 0x3FFE && f == 0)
  {
    PatternFields(w);
    var (e, f) := (Exponent(w), Fraction(w));
    var s, p := if e == 0 then f else TWO112 + f, if e == 0 then 0x406E - e else 0x406F - e;
    assert Magnitude(w) == Over(s, p);
    ScaleFraction(1);
    assert Scale(1, FRACTION_BITS + 1) == 2 * TWO112;
    if e < 0x3FFE {
      ScaleGrows(FRACTION_BITS + 1, p - 1);
    } else {
      assert p - 1 == FRACTION_BITS;
    }
    ShrOfSmall(s, p);
    OverParts(s, p);
    OverNonNegative(s, p);
  }

  /** The high word that the routine stores; `low` is whether it saw a nonzero low word. */
  function SmallResult(ui96: Word, low: bool, mode: Mode): Word {
    var negative := ui96 >= 0x8000_0000;
    var exp := ui96 / 0x1_0000 % 0x8000;
    if !low && ui96 % 0x8000_0000 == 0 then ui96
    else
      var one :=
        match mode
        case NearEven => !(ui96 % 0x1_0000 == 0 && !low) && exp == 0x3FFE
        case NearMaxMag => exp == 0x3FFE
        case Min => negative
        case Max => !negative
        case MinMag => false;
      PackHigh(negative, if one then 0x3FFF else 0, 0)
  }

  /**
   In place, the low words are cleared before they are looked at.  That is noticed when they
   alone make the number nonzero and the mode moves it or the flag is wanted, and when they
   alone push it above one half.
   */
  predicate AliasHazard(w: seq<Word>, mode: Mode, exact: bool)
    requires |w| == 4
  {
    && Exponent(w) < 0x3FFF && !LowWordsZero(w) && HighFraction(w) == 0
    && ((Exponent(w) == 0 && (exact || mode == (if Negative(w) then Min else Max)))
        || (Exponent(w) == 0x3FFE && mode.NearEven?))
  }

  lemma ZeroOrOne(z: seq<Word>, negative: bool, one: bool)
    requires |z| == 4 && LowWordsZero(z) && z[3] == PackHigh(negative, if one then 0x3FFF else 0, 0)
    ensures Finite(z) && Negative(z) == negative && Magnitude(z) == if one then 1.0 else 0.0
  {
    assert Fraction(z) == 0;
    if one {
      ScaleFraction(1);
      OverWhole(1, FRACTION_BITS);
      assert 0x406F - Exponent(z) == FRACTION_BITS;
    } else {
      ScaleZero(0x406E - Exponent(z));
    }
  }

  ghost predicate NonZero(w: seq<Word>)
    requires |w| == 4
  {
    !(Exponent(w) == 0 && HighFraction(w) == 0 && LowWordsZero(w))
  }

  /** Whether a number below one is to become one, read off its fields. */
  ghost predicate BecomesOne(w: seq<Word>, mode: Mode)
    requires |w| == 4
  {
    NonZero(w) &&
    match mode
    case NearEven => Exponent(w) == 0x3FFE && !(HighFraction(w) == 0 && LowWordsZero(w))
    case NearMaxMag => Exponent(w) == 0x3FFE
    case Min => Negative(w)
    case Max => !Negative(w)
    case MinMag => false
  }

  lemma SmallRounds(w: seq<Word>, mode: Mode)
    requires |w| == 4 && Exponent(w) < 0x3FFF
    ensures RoundMagnitude(Magnitude(w), Negative(w), mode) == Up(BecomesOne(w, mode))
    ensures 0.0 <= Magnitude(w) < 1.0 && (Magnitude(w) == 0.0 <==> !NonZero(w))
  {
    SmallMagnitude(w);
    assert Fraction(w) == 0 <==> HighFraction(w) == 0 && LowWordsZero(w);
    assert Magnitude(w).Floor == 0;
  }

  /** A stored zero or one is right exactly when the fields say so. */
  lemma StoredIff(w: seq<Word>, z: seq<Word>, one: bool, mode: Mode, exact: bool, inexact: bool)
    requires |w| == 4 && Exponent(w) < 0x3FFF
    requires |z| == 4 && LowWordsZero(z) && z[3] == PackHigh(Negative(w), if one then 0x3FFF else 0, 0)
    ensures Rounded(w, mode, exact, z, inexact)
            <==> one == BecomesOne(w, mode) && (inexact <==> exact && NonZero(w))
  {
    SmallRounds(w, mode);
    RoundMagnitudeSigned(Magnitude(w), Negative(w), mode);
    ZeroOrOne(z, Negative(w), one);
  }

  lemma SmallCorrectIff(w: seq<Word>, z: seq<Word>, low: bool, mode: Mode, exact: bool)
    requires |w| == 4 && |z| == 4 && Exponent(w) < 0x3FFF && (low ==> !LowWordsZero(w))
    requires LowWordsZero(z) && z[3] == SmallResult(w[3], low, mode)
    ensures
      var inexact := exact && (low || w[3] % 0x8000_0000 != 0);
      Rounded(w, mode, exact, z, inexact) <==> low == !LowWordsZero(w) || !AliasHazard(w, mode, exact)
  {
    assert w[3] % 0x8000_0000 == Exponent(w) * 0x1_0000 + HighFraction(w);
    var one := z[3] != PackHigh(Negative(w), 0, 0);
    StoredIff(w, z, one, mode, exact, exact && (low || w[3] % 0x8000_0000 != 0));
  }

  method RoundSmall(a: array<Word>, mode: Mode, exact: bool, z: array<Word>) returns (inexact: bool)
    requires a.Length == 4 && z.Length == 4 && Exponent(a[..]) < 0x3FFF
    modifies z
    ensures Rounded(old(a[..]), mode, exact, z[..], inexact) <==> a != z || !AliasHazard(old(a[..]), mode, exact)
  {
    ghost var s := a[..];
    var ui96 := a[3];
    z[2], z[1], z[0] := 0, 0, 0;
    var sigExtra := a[2] != 0;
    if !sigExtra {
      sigExtra := a[1] != 0 || a[0] != 0;
    }
    inexact := exact && (sigExtra || ui96 % 0x8000_0000 != 0);
    z[3] := SmallResult(ui96, sigExtra, mode);
    SmallCorrectIff(s, z[..], sigExtra, mode, exact);
  }

  // ----- The whole routine -----

  function Quiet(ui96: Word): Word {
    if ui96 / 0x8000 % 2 == 1 then ui96 else ui96 + 0x8000
  }

  /** A NaN with its top fraction bit set is quiet, and has kept its sign and the fraction below that bit. */
  lemma QuietKeeps(w: seq<Word>)
    requires |w| == 4 && IsNaN(w)
    ensures var z := w[3 := Quiet(w[3])];
            && IsNaN(z) && !IsSignaling(z) && Negative(z) == Negative(w)
            && Fraction(z) == Fraction(w) + (if IsSignaling(w) then TWO112 / 2 else 0)
            && (IsSignaling(w) <==> Fraction(w) < TWO112 / 2)
  {}

  /** Numbers from 2^112 up have no fraction part. */
  lemma IntegralAlready(w: seq<Word>, mode: Mode)
    requires |w| == 4 && 0x406F <= Exponent(w) < 0x7FFF
    ensures Value(w) == RoundIntegral(Value(w), mode) as real
  {
    var n := Scale(TWO112 + Fraction(w), Exponent(w) - 0x406F);
    if Negative(w) {
      assert Value(w) == (-n) as real;
      assert Value(w).Floor == -n;
    } else {
      assert Value(w).Floor == n;
    }
  }

  /**
   `f128M_roundToInt`.  A NaN comes back quiet, an infinity unchanged.  Every finite number is
   rounded as the standard prescribes, with the inexact flag raised exactly when asked for and
   the value changed, except for one family of calls that pass the same array twice.
   */
  method RoundToInt(a: array<Word>, mode: Mode, exact: bool, z: array<Word>) returns (inexact: bool, invalid: bool)
    requires a.Length == 4 && z.Length == 4
    modifies z
    ensures IsNaN(old(a[..])) ==> !inexact && invalid == IsSignaling(old(a[..]))
    ensures IsNaN(old(a[..])) ==> z[..] == old(a[..])[3 := Quiet(old(a[3]))]
    ensures !IsNaN(old(a[..])) ==> !invalid
    ensures !IsNaN(old(a[..])) && !Finite(old(a[..])) ==> !inexact && z[..] == old(a[..])
    ensures Finite(old(a[..])) ==>
              (Rounded(old(a[..]), mode, exact, z[..], inexact) <==> a != z || !AliasHazard(old(a[..]), mode, exact))
  {
    ghost var s := a[..];
    var ui96 := a[3];
    var exp := ui96 / 0x1_0000 % 0x8000;
    inexact, invalid := false, false;
    if exp < 0x3FFF {
      inexact := RoundSmall(a, mode, exact, z);
      return;
    }
    if 0x406F <= exp {
      if exp == 0x7FFF && !(ui96 % 0x1_0000 == 0 && LowWordsZero(a[..])) {
        invalid := IsSignaling(a[..]);
        z[3], z[2], z[1], z[0] := Quiet(ui96), a[2], a[1], a[0];
        return;
      }
      z[2], z[1], z[0] := a[2], a[1], a[0];
      z[3] := ui96;
      assert z[..] == s;
      if exp < 0x7FFF { IntegralAlready(s, mode); }
      return;
    }
    inexact := RoundWords(a, mode, exact, z);
    RoundedPatternDenotes(s, z[..], 0x406F - exp, mode);
  }
}
