/** The C library functions that the JSON code relies on: `isspace`, `%llu`, `%lld`, `strtoull`, `strtoll`. */
module CText {
  import opened Common

  const U64_LIMIT := TWO64
  const I64_LIMIT := TWO63

  const NUL: char := '\0'

  predicate IsSpace(c: char) { c == ' ' || '\t' <= c <= '\r' }
  predicate IsDigit(c: char) { '0' <= c <= '9' }

  /** The value of a digit character, or 99. */
  function DigitValue(c: char): nat {
    if '0' <= c <= '9' then c as int - '0' as int
    else if 'a' <= c <= 'z' then c as int - 'a' as int + 10
    else if 'A' <= c <= 'Z' then c as int - 'A' as int + 10
    else 99
  }

  function DigitChar(d: nat): char
    requires d < 10
  {
    '0' + d as char
  }

  /** Decimal digits of a number, no leading zeros. */
  function Decimal(n: nat): (s: string)
    ensures |s| > 0 && (forall i :: 0 <= i < |s| ==> IsDigit(s[i]))
    ensures n > 0 ==> s[0] != '0'
  {
    if n < 10 then [DigitChar(n)] else Decimal(n / 10) + [DigitChar(n % 10)]
  }

  /** `%lld`. */
  function SignedDecimal(n: int): string {
    if n < 0 then "-" + Decimal(-n) else Decimal(n)
  }

  // ----- strtoull and strtoll with base 0 -----

  /** The number of digits of `base` at `i`, and their value continued from `acc`. */
  function Digits(s: string, i: nat, base: nat, acc: nat): (r: (nat, nat))
    requires i <= |s| && base in {8, 10, 16}
    ensures i <= r.0 <= |s|
    decreases |s| - i
  {
    if i == |s| || DigitValue(s[i]) >= base then (i, acc)
    else Digits(s, i + 1, base, Times(base, acc) + DigitValue(s[i]))
  }

  /** The product, for the bases that prefixes select. */
  function Times(base: nat, n: nat): nat
    requires base in {8, 10, 16}
  {
    if base == 8 then 8 * n else if base == 10 then 10 * n else 16 * n
  }

  function SkipSpaces(s: string, i: nat): (r: nat)
    requires i <= |s|
    ensures i <= r <= |s|
    decreases |s| - i
  {
    if i < |s| && IsSpace(s[i]) then SkipSpaces(s, i + 1) else i
  }

  /** Sign, magnitude and end of the number at the start of `s`; the end is 0 if there is none. */
  function ScanNumber(s: string): (bool, nat, nat) {
    var i := SkipSpaces(s, 0);
    var negative := i < |s| && s[i] == '-';
    var j := if i < |s| && (s[i] == '-' || s[i] == '+') then i + 1 else i;
    var hex := j + 2 < |s| && s[j] == '0' && (s[j + 1] == 'x' || s[j + 1] == 'X') && DigitValue(s[j + 2]) < 16;
    var start := if hex then j + 2 else j;
    var base := if hex then 16 else if j < |s| && s[j] == '0' then 8 else 10;
    var (end, value) := Digits(s, start, base, 0);
    if end == start then (negative, 0, 0) else (negative, value, end)
  }

  /** `strtoull(s, &ep, 0)`: value and offset of `ep`. */
  function StrToU64(s: string): (nat, nat) {
    var (negative, value, end) := ScanNumber(s);
    if value >= U64_LIMIT then (U64_LIMIT - 1, end)
    else if negative && value != 0 then (U64_LIMIT - value, end)
    else (value, end)
  }

  /** `strtoll(s, &ep, 0)`. */
  function StrToI64(s: string): (int, nat) {
    var (negative, value, end) := ScanNumber(s);
    if negative then (if value > I64_LIMIT then -I64_LIMIT else 0 - value, end)
    else (if value >= I64_LIMIT then I64_LIMIT - 1 else value, end)
  }

  // ----- Printing then scanning -----

  /** Text that does not continue a number. */
  predicate EndsNumber(rest: string) {
    rest == [] || (DigitValue(rest[0]) == 99)
  }

  /** The value of decimal digits continued from `acc`. */
  ghost function Shifted(acc: nat, n: nat): nat
    decreases n
  {
    if n < 10 then acc * 10 + n else Shifted(acc, n / 10) * 10 + n % 10
  }

  lemma {:induction false} ShiftedZero(n: nat)
    ensures Shifted(0, n) == n
  {
    if n < 10 {
    } else {
      ShiftedZero(n / 10);
    }
  }

  lemma OneDigit(s: string, i: nat, d: nat, acc: nat)
    requires i < |s| && d < 10 && s[i] == DigitChar(d)
    ensures Digits(s, i, 10, acc) == Digits(s, i + 1, 10, acc * 10 + d)
  {
    assert DigitValue(s[i]) == d;
  }

  /** The digits of `n` before its last one. */
  lemma LeadingDigits(s: string, i: nat, end: nat, n: nat)
    requires n >= 10 && i <= end <= |s| && s[i..end] == Decimal(n)
    ensures i < end && s[i..end - 1] == Decimal(n / 10) && s[end - 1] == DigitChar(n % 10)
  {
    var k := |Decimal(n)|;
    assert s[i..end - 1] == s[i..end][..k - 1];
    assert s[end - 1] == s[i..end][k - 1];
  }

  /** Scanning the digits of `n` inside a longer text. */
  lemma {:induction false} DigitsOfDecimal(s: string, i: nat, end: nat, n: nat, acc: nat)
    requires i <= end <= |s| && s[i..end] == Decimal(n)
    ensures Digits(s, i, 10, acc) == Digits(s, end, 10, Shifted(acc, n))
    decreases n
  {
    if n < 10 {
      assert end == i + 1 && s[i] == s[i..end][0];
      OneDigit(s, i, n, acc);
    } else {
      LeadingDigits(s, i, end, n);
      DigitsOfDecimal(s, i, end - 1, n / 10, acc);
      OneDigit(s, end - 1, n % 10, Shifted(acc, n / 10));
    }
  }

  lemma ScanDecimal(n: nat, rest: string)
    requires EndsNumber(rest)
    ensures ScanNumber(Decimal(n) + rest) == (false, n, |Decimal(n)|)
  {
    var s := Decimal(n) + rest;
    var k := |Decimal(n)|;
    assert s[0] == Decimal(n)[0] && IsDigit(s[0]);
    assert s[0..k] == Decimal(n);
    assert k < |s| ==> s[k] == rest[0];
    ShiftedZero(n);
    if n == 0 {
      assert s[0] == '0';
      assert Digits(s, 0, 8, 0) == Digits(s, 1, 8, 0) == (1, 0);
    } else {
      assert s[0] != '0';
      DigitsOfDecimal(s, 0, k, n, 0);
    }
  }

  lemma ScanNegative(n: nat, rest: string)
    requires n > 0 && EndsNumber(rest)
    ensures ScanNumber("-" + Decimal(n) + rest) == (true, n, |Decimal(n)| + 1)
  {
    var s := "-" + Decimal(n) + rest;
    var k := |Decimal(n)|;
    assert s[0] == '-' && s[1] == Decimal(n)[0];
    assert s[1..1 + k] == Decimal(n);
    assert 1 + k < |s| ==> s[1 + k] == rest[0];
    ShiftedZero(n);
    DigitsOfDecimal(s, 1, 1 + k, n, 0);
  }

  /** `strtoull` undoes `%llu`. */
  lemma ScanPrintedU64(n: nat, rest: string)
    requires n < U64_LIMIT && EndsNumber(rest)
    ensures StrToU64(Decimal(n) + rest) == (n, |Decimal(n)|)
  {
    ScanDecimal(n, rest);
  }

  /** `strtoll` undoes `%lld`. */
  lemma ScanPrintedI64(n: int, rest: string)
    requires -I64_LIMIT <= n < I64_LIMIT && EndsNumber(rest)
    ensures StrToI64(SignedDecimal(n) + rest) == (n, |SignedDecimal(n)|)
  {
    if n < 0 {
      assert SignedDecimal(n) + rest == "-" + Decimal(-n) + rest;
      ScanNegative(-n, rest);
    } else {
      ScanDecimal(n, rest);
    }
  }

  ghost function TenTo(k: nat): (r: nat)
    ensures r > 0
  {
    if k == 0 then 1 else 10 * TenTo(k - 1)
  }

  lemma {:induction false} DecimalLength(n: nat, k: nat)
    requires k > 0 && n < TenTo(k)
    ensures |Decimal(n)| <= k
  {
    if n < 10 {
    } else {
      assert k > 1 by { assert TenTo(1) == 10; }
      DecimalLength(n / 10, k - 1);
    }
  }

  lemma DecimalFits(n: nat)
    requires n < U64_LIMIT
    ensures |Decimal(n)| <= 20
  {
    assert TenTo(4) == 10_000;
    assert TenTo(8) == 100_000_000;
    assert TenTo(12) == 1_000_000_000_000;
    assert TenTo(16) == 10_000_000_000_000_000;
    assert TenTo(20) == 100_000_000_000_000_000_000;
    DecimalLength(n, 20);
  }

  lemma SignedFits(n: int)
    requires -I64_LIMIT <= n < I64_LIMIT
    ensures |SignedDecimal(n)| <= 21
  {
    if n < 0 { DecimalFits(-n); } else { DecimalFits(n); }
  }

  // ----- Every form of a number -----

  /** The value of digits in a base. */
  ghost function ValueOf(ds: string, base: nat): nat
    requires base in {8, 10, 16}
  {
    if ds == [] then 0 else Times(base, ValueOf(ds[..|ds| - 1], base)) + DigitValue(ds[|ds| - 1])
  }

  predicate AllDigits(ds: string, base: nat) { forall i :: 0 <= i < |ds| ==> DigitValue(ds[i]) < base }

  lemma OneMoreDigit(s: string, i: nat, k: nat, base: nat)
    requires i <= k < |s| && base in {8, 10, 16}
    ensures ValueOf(s[i..k + 1], base) == Times(base, ValueOf(s[i..k], base)) + DigitValue(s[k])
  {
    var t := s[i..k + 1];
    assert t[..|t| - 1] == s[i..k] && t[|t| - 1] == s[k];
  }

  /** Reading on with what has been read so far. */
  lemma {:induction false} DigitsFrom(s: string, i: nat, k: nat, end: nat, base: nat)
    requires i <= k <= end <= |s| && base in {8, 10, 16} && forall x :: k <= x < end ==> DigitValue(s[x]) < base
    requires end == |s| || DigitValue(s[end]) >= base
    ensures Digits(s, k, base, ValueOf(s[i..k], base)) == (end, ValueOf(s[i..end], base))
    decreases end - k
  {
    if k < end {
      OneMoreDigit(s, i, k, base);
      DigitsFrom(s, i, k + 1, end, base);
    }
  }

  lemma {:induction false} LeadingZero(ds: string, base: nat)
    requires base in {8, 10, 16}
    ensures ValueOf(['0'] + ds, base) == ValueOf(ds, base)
    decreases |ds|
  {
    var s := ['0'] + ds;
    if ds == [] {
      assert s[..0] == [];
    } else {
      assert s[..|s| - 1] == ['0'] + ds[..|ds| - 1];
      LeadingZero(ds[..|ds| - 1], base);
    }
  }

  lemma {:induction false} SpacesSkipped(s: string, i: nat, j: nat)
    requires i <= j <= |s| && (forall k :: i <= k < j ==> IsSpace(s[k])) && (j == |s| || !IsSpace(s[j]))
    ensures SkipSpaces(s, i) == j
    decreases j - i
  {
    if i < j { SpacesSkipped(s, i + 1, j); }
  }

  /** `isspace` in the C locale. */
  lemma SpacesAre(c: char)
    ensures IsSpace(c) <==> c as int == 32 || 9 <= c as int <= 13
  {}

  predicate Sign(sign: string) { sign in {"", "+", "-"} }

  /** The sign at `i`, and where the number goes on. */
  predicate Signs(s: string, i: nat, negative: bool, j: nat) {
    && negative == (i < |s| && s[i] == '-')
    && j == if i < |s| && (s[i] == '-' || s[i] == '+') then i + 1 else i
  }

  /** White space, a sign and what the number begins with. */
  lemma ScanStart(sp: string, sign: string, tail: string, s: string) returns (j: nat)
    requires (forall i :: 0 <= i < |sp| ==> IsSpace(sp[i])) && Sign(sign)
    requires tail != [] ==> !IsSpace(tail[0]) && tail[0] !in {'+', '-'}
    requires s == sp + sign + tail
    ensures j == |sp| + |sign| <= |s| && s[j..] == tail
    ensures SkipSpaces(s, 0) == |sp| && Signs(s, |sp|, sign == "-", j)
  {
    j := |sp| + |sign|;
    SpacesSkipped(s, 0, |sp|);
  }

  function BaseOf(pre: string): nat { if pre == "" then 10 else if pre == "0" then 8 else 16 }

  /**
   `strtoull` and `strtoll` with base 0: white space, a sign, and a prefix that selects the base, 0 for
   octal and 0x for hexadecimal; the number ends where its digits do.
   */
  lemma ScanForms(sp: string, sign: string, pre: string, ds: string, rest: string, text: string, base: nat)
    requires (forall i :: 0 <= i < |sp| ==> IsSpace(sp[i])) && Sign(sign) && pre in {"", "0", "0x", "0X"}
    requires base == BaseOf(pre) && ds != [] && AllDigits(ds, base) && (pre == "" ==> ds[0] != '0')
    requires rest == [] || DigitValue(rest[0]) >= base
    requires text == sp + sign + (pre + ds + rest)
    ensures ScanNumber(text) == (sign == "-", ValueOf(ds, base), |sp| + |sign| + |pre| + |ds|)
  {
    NumberStarts(pre, ds, rest);
    var j := ScanStart(sp, sign, pre + ds + rest, text);
    ScanBody(text, |sp|, sign == "-", j, pre, ds, rest, base);
  }

  lemma NumberStarts(pre: string, ds: string, rest: string)
    requires pre in {"", "0", "0x", "0X"} && ds != [] && AllDigits(ds, BaseOf(pre))
    ensures var tail := pre + ds + rest; tail != [] && !IsSpace(tail[0]) && tail[0] !in {'+', '-'}
  {
    PrefixChars(pre);
    var c := (pre + ds + rest)[0];
    assert c == if pre == "" then ds[0] else pre[0];
    assert DigitValue(c) < 16;
  }

  lemma ScanBody(s: string, i: nat, negative: bool, j: nat, pre: string, ds: string, rest: string,
                 base: nat)
    requires pre in {"", "0", "0x", "0X"} && base == BaseOf(pre)
    requires ds != [] && AllDigits(ds, base) && (pre == "" ==> ds[0] != '0')
    requires rest == [] || DigitValue(rest[0]) >= base
    requires i == SkipSpaces(s, 0) && Signs(s, i, negative, j) && s[j..] == pre + ds + rest
    ensures ScanNumber(s) == (negative, ValueOf(ds, base), j + |pre| + |ds|)
  {
    TailPieces(s, j, pre, ds, rest);
    PrefixChars(pre);
    var (k, end) := (j + |pre|, j + |pre| + |ds|);
    assert DigitValue(ds[0]) < base;
    if |pre| == 1 { OctalRun(s, j, end, ds); } else { DigitsRun(s, k, end, base); }
    ScanRun(s, i, negative, j, |pre| == 2, k, base, end, ValueOf(ds, base));
  }

  /** The number, once it is known where its digits begin and end. */
  lemma ScanRun(s: string, i: nat, negative: bool, j: nat, hex: bool, k: nat, base: nat, end: nat, value: nat)
    requires i == SkipSpaces(s, 0) && Signs(s, i, negative, j) && j <= k < end <= |s| && base in {8, 10, 16}
    requires hex <==> j + 2 < |s| && s[j] == '0' && (s[j + 1] == 'x' || s[j + 1] == 'X') && DigitValue(s[j + 2]) < 16
    requires base == (if hex then 16 else if s[j] == '0' then 8 else 10)
    requires Digits(s, if hex then j + 2 else j, base, 0) == (end, value)
    ensures ScanNumber(s) == (negative, value, end)
  {}

  lemma PrefixChars(pre: string)
    requires pre in {"", "0", "0x", "0X"}
    ensures |pre| <= 2 && (pre != "" ==> pre[0] == '0') && (|pre| == 2 ==> pre[1] == 'x' || pre[1] == 'X')
    ensures BaseOf(pre) == if |pre| == 0 then 10 else if |pre| == 1 then 8 else 16
  {}

  lemma TailPieces(s: string, j: nat, pre: string, ds: string, rest: string)
    requires j <= |s| && s[j..] == pre + ds + rest && ds != []
    ensures
      var (k, end) := (j + |pre|, j + |pre| + |ds|);
      && k < end <= |s| && s[j..k] == pre && s[k..end] == ds && s[k] == ds[0]
      && (end < |s| ==> rest != [] && s[end] == rest[0]) && (end == |s| ==> rest == [])
      && forall i :: 0 <= i < |pre| ==> s[j + i] == pre[i]
  {
    var tail := pre + ds + rest;
    assert forall i :: 0 <= i < |tail| ==> s[j + i] == s[j..][i] == tail[i];
  }

  lemma DigitsRun(s: string, k: nat, end: nat, base: nat)
    requires k <= end <= |s| && base in {8, 10, 16} && AllDigits(s[k..end], base)
    requires end == |s| || DigitValue(s[end]) >= base
    ensures Digits(s, k, base, 0) == (end, ValueOf(s[k..end], base))
  {
    assert s[k..k] == [];
    assert forall x :: k <= x < end ==> s[k..end][x - k] == s[x];
    DigitsFrom(s, k, k, end, base);
  }

  lemma OctalRun(s: string, j: nat, end: nat, ds: string)
    requires j + 1 < end <= |s| && s[j] == '0' && s[j + 1..end] == ds && AllDigits(ds, 8)
    requires end == |s| || DigitValue(s[end]) >= 8
    ensures Digits(s, j, 8, 0) == (end, ValueOf(ds, 8)) && DigitValue(s[j + 1]) < 8
  {
    assert s[j..end] == ['0'] + ds && s[j + 1] == ds[0];
    DigitsRun(s, j, end, 8);
    LeadingZero(ds, 8);
  }

  /** Without a digit there is no number. */
  lemma ScanNothing(sp: string, sign: string, rest: string)
    requires (forall i :: 0 <= i < |sp| ==> IsSpace(sp[i])) && Sign(sign)
    requires rest != [] ==> !IsSpace(rest[0]) && rest[0] !in {'+', '-'} && DigitValue(rest[0]) >= 10
    ensures ScanNumber(sp + sign + rest) == (sign == "-", 0, 0)
  {
    var s := sp + sign + rest;
    var j := ScanStart(sp, sign, rest, s);
    if rest != [] { assert s[j] == s[j..][0]; }
  }

  function Signed(negative: bool, value: int): int { if negative then -value else value }

  /** What does not fit saturates; a minus sign negates modulo 2^64 where the result is unsigned. */
  lemma ScanLimits(s: string)
    ensures
      var ((negative, value, end), (u, e), (i, e')) := (ScanNumber(s), StrToU64(s), StrToI64(s));
      var signed := Signed(negative, value);
      && e == e' == end
      && (value >= 0x1_0000_0000_0000_0000 ==> u == 0xffff_ffff_ffff_ffff)
      && (value < 0x1_0000_0000_0000_0000 ==>
            u < 0x1_0000_0000_0000_0000 && (signed - u) % 0x1_0000_0000_0000_0000 == 0)
      && (i == if signed > 0x7fff_ffff_ffff_ffff then 0x7fff_ffff_ffff_ffff
               else if signed < -0x8000_0000_0000_0000 then -0x8000_0000_0000_0000 else signed)
  {}
}
