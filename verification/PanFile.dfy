/**
 The PAN master's node list in a text file (lib/panmaster/src/panmaster_file.c): one line of
 comma-separated hexadecimal fields per record, read back through a row buffer.
 */
module PanFile {
  import opened CText
  import opened Common

  const ROW_BUFFER := 143
  const FIELD_COUNT := 10

  /** The room for tokens in the parser. */
  const MAX_TOKENS := FIELD_COUNT + 2

  /** The fields of a record that are written; the slot is not among them. */
  datatype Row = Row(index: nat, seen: nat, euid: nat, addr: nat, flags: nat, role: nat,
                     major: nat, minor: nat, revision: nat, build: nat)

  /** Bit patterns of the fields' widths; the role is the top of the flags. */
  predicate FitsWidths(r: Row) {
    && r.index < 0x100 && r.seen < U64_LIMIT && r.euid < U64_LIMIT && r.addr < 0x1_0000
    && r.flags < 0x1_0000 && r.role == r.flags / 0x1000
    && r.major < 0x100 && r.minor < 0x100 && r.revision < 0x1_0000 && r.build < 0x1_0000_0000
  }

  /** Values that survive the signed `strtoll` and `strtol`. */
  predicate InRange(r: Row) { FitsWidths(r) && r.seen < I64_LIMIT && r.euid < I64_LIMIT && r.build < 0x8000_0000 }

  // ----- Hexadecimal numbers -----

  function HexChar(d: nat): char
    requires d < 16
  {
    if d < 10 then '0' + d as char else 'A' + (d - 10) as char
  }

  /** `%X`. */
  function Hex(n: nat): (s: string)
    ensures |s| > 0 && forall i :: 0 <= i < |s| ==> DigitValue(s[i]) < 16
  {
    if n < 16 then [HexChar(n)] else Hex(n / 16) + [HexChar(n % 16)]
  }

  /** `strtol(s, NULL, 16)` with results up to `limit`. */
  function StrToHex(s: string, limit: nat): int
    requires limit > 0
  {
    var i := SkipSpaces(s, 0);
    var negative := i < |s| && s[i] == '-';
    var j := if i < |s| && (s[i] == '-' || s[i] == '+') then i + 1 else i;
    var hex := j + 2 < |s| && s[j] == '0' && (s[j + 1] == 'x' || s[j + 1] == 'X') && DigitValue(s[j + 2]) < 16;
    var value := Digits(s, if hex then j + 2 else j, 16, 0).1;
    if negative then (if value > limit then 0 - limit else 0 - value)
    else (if value >= limit then limit - 1 else value)
  }

  ghost function HexShifted(acc: nat, n: nat): nat
    decreases n
  {
    if n < 16 then acc * 16 + n else HexShifted(acc, n / 16) * 16 + n % 16
  }

  lemma {:induction false} HexShiftedZero(n: nat)
    ensures HexShifted(0, n) == n
  {
    if n < 16 {
    } else {
      HexShiftedZero(n / 16);
    }
  }

  lemma {:induction false} DigitsOfHex(s: string, n: nat, acc: nat, k: nat)
    requires k == |Hex(n)| <= |s| && s[..k] == Hex(n)
    ensures Digits(s, 0, 16, acc) == Digits(s, k, 16, HexShifted(acc, n))
    decreases n
  {
    if n < 16 {
      assert s[0] == s[..k][0] == HexChar(n);
    } else {
      var m := |Hex(n / 16)|;
      assert s[..m] == s[..k][..m] == Hex(n / 16);
      DigitsOfHex(s, n / 16, acc, m);
      assert s[m] == s[..k][m] == HexChar(n % 16);
    }
  }

  /** Scanning undoes printing below the limit and saturates from there on. */
  lemma HexScanned(n: nat, limit: nat)
    requires limit > 0
    ensures StrToHex(Hex(n), limit) == if n < limit then n else limit - 1
  {
    var s := Hex(n);
    assert s[..|s|] == s;
    DigitsOfHex(s, n, 0, |s|);
    HexShiftedZero(n);
    assert DigitValue(s[0]) < 16;
  }

  /** The nearest number that a signed type with this limit has. */
  function Saturated(value: int, limit: int): int {
    if value >= limit then limit - 1 else if value < -limit then -limit else value
  }

  /** Every form that `strtol` takes in base 16: white space, a sign, an optional 0x; what does not fit saturates. */
  lemma HexForms(sp: string, sign: string, pre: string, ds: string, text: string, limit: nat)
    requires (forall i :: 0 <= i < |sp| ==> IsSpace(sp[i])) && Sign(sign) && pre in {"", "0x", "0X"}
    requires ds != [] && AllDigits(ds, 16) && limit > 0 && text == sp + sign + (pre + ds + [])
    ensures
      StrToHex(text, limit) == Saturated(Signed(sign == "-", ValueOf(ds, 16)), limit)
  {
    HexStarts(pre, ds);
    var j := ScanStart(sp, sign, pre + ds + [], text);
    TailPieces(text, j, pre, ds, []);
    DigitsRun(text, j + |pre|, |text|, 16);
    HexPrefix(pre);
    HexRun(text, |sp|, sign == "-", j, |pre| == 2, ValueOf(ds, 16), limit);
  }

  lemma HexStarts(pre: string, ds: string)
    requires pre in {"", "0x", "0X"} && ds != [] && AllDigits(ds, 16)
    ensures var tail := pre + ds + []; tail != [] && !IsSpace(tail[0]) && tail[0] !in {'+', '-'}
  {
    HexPrefix(pre);
    var c := (pre + ds + [])[0];
    assert c == if pre == "" then ds[0] else pre[0];
    assert DigitValue(c) < 16;
  }

  lemma HexPrefix(pre: string)
    requires pre in {"", "0x", "0X"}
    ensures (|pre| == 0 || |pre| == 2) && (|pre| == 2 ==> pre[0] == '0' && (pre[1] == 'x' || pre[1] == 'X'))
  {}

  lemma HexRun(s: string, i: nat, negative: bool, j: nat, hex: bool, value: nat, limit: nat)
    requires i == SkipSpaces(s, 0) && Signs(s, i, negative, j) && j <= |s| && limit > 0 && (hex ==> j + 2 <= |s|)
    requires hex <==> j + 2 < |s| && s[j] == '0' && (s[j + 1] == 'x' || s[j + 1] == 'X') && DigitValue(s[j + 2]) < 16
    requires Digits(s, if hex then j + 2 else j, 16, 0).1 == value
    ensures StrToHex(s, limit) == Saturated(Signed(negative, value), limit)
  {}

  ghost function SixteenTo(k: nat): (r: nat)
    ensures r > 0
  {
    if k == 0 then 1 else 16 * SixteenTo(k - 1)
  }

  lemma {:induction false} HexLength(n: nat, k: nat)
    requires k > 0 && n < SixteenTo(k)
    ensures |Hex(n)| <= k
  {
    if n < 16 {
    } else {
      assert k > 1 by { assert SixteenTo(1) == 16; }
      HexLength(n / 16, k - 1);
    }
  }

  // ----- Lines -----

  function UpTo(s: string, c: char): (r: string)
    ensures |r| <= |s| && r == s[..|r|] && (|r| < |s| ==> s[|r|] == c)
    ensures forall i :: 0 <= i < |r| ==> r[i] != c
  {
    if s == [] || s[0] == c then [] else [s[0]] + UpTo(s[1..], c)
  }

  /** The tokens that `strtok_r` finds between commas. */
  function Tokens(s: string): seq<string>
    decreases |s|
  {
    if s == [] then []
    else if s[0] == ',' then Tokens(s[1..])
    else [UpTo(s, ',')] + Tokens(s[|UpTo(s, ',')|..])
  }

  function FieldsOf(r: Row): seq<nat> {
    [r.index, r.seen, r.euid, r.addr, r.flags, r.role, r.major, r.minor, r.revision, r.build]
  }

  /** `panm_line_make`: every field is followed by a comma. */
  function LineOf(fields: seq<nat>): string {
    if fields == [] then [] else Hex(fields[0]) + [','] + LineOf(fields[1..])
  }

  function Hexes(fields: seq<nat>): (r: seq<string>)
    ensures |r| == |fields| && forall i :: 0 <= i < |r| ==> r[i] == Hex(fields[i])
  {
    if fields == [] then [] else [Hex(fields[0])] + Hexes(fields[1..])
  }

  /** The first three fields are read by `strtoll`, the others by `strtol`. */
  function Limit(i: nat): nat { if i < 3 then I64_LIMIT else 0x8000_0000 }

  function Scan(t: seq<string>, i: nat): int
    requires i < |t|
  {
    StrToHex(t[i], Limit(i))
  }

  function Scanned(t: seq<string>): (v: seq<int>)
    requires |t| >= FIELD_COUNT
    ensures |v| == FIELD_COUNT && forall i :: 0 <= i < FIELD_COUNT ==> v[i] == Scan(t, i)
  {
    [Scan(t, 0), Scan(t, 1), Scan(t, 2), Scan(t, 3), Scan(t, 4),
     Scan(t, 5), Scan(t, 6), Scan(t, 7), Scan(t, 8), Scan(t, 9)]
  }

  /** The scanned values stored in fields of their width; writing the role replaces the top bits of the flags. */
  function Stored(v: seq<int>): Row
    requires |v| == FIELD_COUNT
  {
    Row(v[0] % 0x100, v[1] % U64_LIMIT, v[2] % U64_LIMIT, v[3] % 0x1_0000,
        v[4] % 0x1000 + 0x1000 * (v[5] % 16), v[5] % 16,
        v[6] % 0x100, v[7] % 0x100, v[8] % 0x1_0000, v[9] % 0x1_0000_0000)
  }

  /** `panm_line_parse`, for lines whose tokens fit its array. */
  function Parse(line: string): Option<Row>
    requires |Tokens(line)| <= MAX_TOKENS
  {
    var t := Tokens(line);
    if |t| < FIELD_COUNT then None
    else
      Some(Stored(Scanned(t)))
  }

  lemma {:induction false} UpToConcat(f: string, c: char, tail: string)
    requires forall i :: 0 <= i < |f| ==> f[i] != c
    ensures UpTo(f + [c] + tail, c) == f
  {
    if f == [] {
      assert (f + [c] + tail)[0] == c;
    } else {
      assert (f + [c] + tail)[1..] == f[1..] + [c] + tail;
      UpToConcat(f[1..], c, tail);
    }
  }

  lemma {:induction false} WholeUpTo(f: string, c: char)
    requires forall i :: 0 <= i < |f| ==> f[i] != c
    ensures UpTo(f, c) == f
  {
    if f == [] {
    } else {
      WholeUpTo(f[1..], c);
    }
  }

  lemma TokenFirst(f: string, tail: string)
    requires f != [] && forall i :: 0 <= i < |f| ==> f[i] != ','
    ensures Tokens(f + [','] + tail) == [f] + Tokens(tail)
  {
    var s := f + [','] + tail;
    UpToConcat(f, ',', tail);
    var rest := s[|f|..];
    assert rest == [','] + tail;
    assert rest[1..] == tail;
  }

  lemma {:induction false} TokensOfLine(fields: seq<nat>)
    ensures Tokens(LineOf(fields)) == Hexes(fields)
  {
    if fields == [] {
    } else {
      var f := Hex(fields[0]);
      assert forall i :: 0 <= i < |f| ==> DigitValue(f[i]) < 16;
      TokenFirst(f, LineOf(fields[1..]));
      TokensOfLine(fields[1..]);
    }
  }

  /** What a field reads back as. */
  function Clamp(n: nat, i: nat): nat { if n < Limit(i) then n else Limit(i) - 1 }

  function Clamped(r: Row): Row {
    r.(seen := Clamp(r.seen, 1), euid := Clamp(r.euid, 2), build := Clamp(r.build, 9))
  }

  lemma ScanField(fields: seq<nat>, i: nat)
    requires i < |fields|
    ensures Scan(Hexes(fields), i) == Clamp(fields[i], i)
  {
    HexScanned(fields[i], Limit(i));
  }

  lemma StoredFields(r: Row)
    requires FitsWidths(r)
    ensures Stored(FieldsOf(Clamped(r))) == Clamped(r)
    ensures forall i :: 0 <= i < FIELD_COUNT ==> FieldsOf(Clamped(r))[i] == Clamp(FieldsOf(r)[i], i)
  {}

  lemma LineReadsBack(r: Row)
    requires FitsWidths(r)
    ensures |Tokens(LineOf(FieldsOf(r)))| == FIELD_COUNT && Parse(LineOf(FieldsOf(r))) == Some(Clamped(r))
  {
    var f := FieldsOf(r);
    TokensOfLine(f);
    StoredFields(r);
    var t := Hexes(f);
    forall i | 0 <= i < FIELD_COUNT ensures Scan(t, i) == FieldsOf(Clamped(r))[i] { ScanField(f, i); }
    assert Scanned(t) == FieldsOf(Clamped(r));
  }

  /** A record survives its line if and only if its 64-bit fields and build number are below the signed limits. */
  lemma LineRoundTripIff(r: Row)
    requires FitsWidths(r)
    ensures |Tokens(LineOf(FieldsOf(r)))| == FIELD_COUNT
    ensures Parse(LineOf(FieldsOf(r))) == Some(r) <==> InRange(r)
  {
    LineReadsBack(r);
  }

  // ----- Files -----

  /** What `panm_getnext_line` leaves in the row buffer: a line ends at a newline or a NUL. */
  function FirstLine(rest: string): (line: string)
    ensures |line| <= |rest|
  {
    UpTo(UpTo(if |rest| >= ROW_BUFFER then rest[..ROW_BUFFER - 1] else rest, '\n'), NUL)
  }

  function AfterLine(rest: string, line: string): string {
    if |line| + 1 <= |rest| then rest[|line| + 1..] else []
  }

  /** No line has more tokens than the parser has room for. */
  predicate TokensFit(rest: string)
    decreases |rest|
  {
    rest == []
    || (|Tokens(FirstLine(rest))| <= MAX_TOKENS && TokensFit(AfterLine(rest, FirstLine(rest))))
  }

  /** The records that loading hands to the callback. */
  function Load(rest: string): seq<Row>
    requires TokensFit(rest)
    decreases |rest|
  {
    if rest == [] then []
    else
      var line := FirstLine(rest);
      Rows(Parse(line)) + Load(AfterLine(rest, line))
  }

  function Rows(parsed: Option<Row>): seq<Row> { if parsed.Some? then [parsed.value] else [] }

  function Save(rows: seq<Row>): string {
    if rows == [] then [] else LineOf(FieldsOf(rows[0])) + ['\n'] + Save(rows[1..])
  }

  class NodeFile {
    var content: string

    constructor ()
      ensures content == []
    {
      content := [];
    }

    /** `panm_file_save`: a record whose line does not fit the buffer is refused. */
    method SaveNode(r: Row) returns (ok: bool)
      modifies this
      ensures ok == (|LineOf(FieldsOf(r))| + 2 <= ROW_BUFFER)
      ensures content == if ok then old(content) + LineOf(FieldsOf(r)) + ['\n'] else old(content)
    {
      var line := LineOf(FieldsOf(r));
      if |line| + 2 > ROW_BUFFER { return false; }
      content := content + (line + ['\n']);
      ok := true;
    }

    /** `panm_getnext_line`. */
    method NextLine(loc: nat) returns (line: string)
      requires loc < |content|
      ensures line == FirstLine(Suffix(content, loc))
    {
      var end := if loc + ROW_BUFFER <= |content| then loc + ROW_BUFFER - 1 else |content|;
      var buf := content[loc..end];
      ghost var rest := content[loc..];
      assert buf == if |rest| >= ROW_BUFFER then rest[..ROW_BUFFER - 1] else rest;
      line := UpTo(UpTo(buf, '\n'), NUL);
    }

    /** One turn of the loading loop. */
    method LoadLine(loc: nat) returns (rows: seq<Row>, next: nat)
      requires loc < |content| && TokensFit(Suffix(content, loc))
      ensures next > loc && TokensFit(Suffix(content, next))
      ensures Load(Suffix(content, loc)) == rows + Load(Suffix(content, next))
    {
      var line := NextLine(loc);
      LoadStep(content, loc, line);
      next := loc + |line| + 1;
      var parsed := Parse(line);
      rows := if parsed.Some? then [parsed.value] else [];
    }

    /** `panm_file_load`: the location advances line by line until a read returns nothing. */
    method LoadNodes() returns (rows: seq<Row>)
      requires TokensFit(content)
      ensures rows == Load(content)
    {
      rows := [];
      var loc := 0;
      assert content[0..] == content;
      while loc < |content|
        invariant 0 <= loc && TokensFit(Suffix(content, loc)) && rows + Load(Suffix(content, loc)) == Load(content)
        decreases |content| - loc
      {
        var found, next := LoadLine(loc);
        Joined(rows, found, Load(Suffix(content, next)));
        rows := rows + found;
        loc := next;
      }
    }
  }

  lemma Joined(a: seq<Row>, b: seq<Row>, c: seq<Row>)
    ensures a + (b + c) == (a + b) + c
  {}

  function Suffix(s: string, i: nat): string { if i <= |s| then s[i..] else [] }

  lemma LoadStep(content: string, loc: nat, line: string)
    requires loc < |content| && TokensFit(Suffix(content, loc)) && line == FirstLine(Suffix(content, loc))
    ensures |Tokens(line)| <= MAX_TOKENS && TokensFit(Suffix(content, loc + |line| + 1))
    ensures Load(Suffix(content, loc)) == Rows(Parse(line)) + Load(Suffix(content, loc + |line| + 1))
  {
    var (rest, tail) := (Suffix(content, loc), Suffix(content, loc + |line| + 1));
    assert AfterLine(rest, line) == tail;
    LoadUnfolds(rest, line, tail);
  }

  lemma LoadUnfolds(rest: string, line: string, tail: string)
    requires rest != [] && TokensFit(rest) && line == FirstLine(rest) && tail == AfterLine(rest, line)
    ensures |Tokens(line)| <= MAX_TOKENS && TokensFit(tail)
    ensures Load(rest) == Rows(Parse(line)) + Load(tail)
  {}

  lemma {:induction false} LineChars(fields: seq<nat>)
    ensures forall i :: 0 <= i < |LineOf(fields)| ==> LineOf(fields)[i] != '\n' && LineOf(fields)[i] != NUL
  {
    if fields == [] {
    } else {
      var f := Hex(fields[0]);
      assert forall i :: 0 <= i < |f| ==> DigitValue(f[i]) < 16;
      LineChars(fields[1..]);
    }
  }

  /** How many hexadecimal digits each field needs. */
  function Widths(): seq<nat> { [2, 16, 16, 4, 4, 1, 2, 2, 4, 8] }

  ghost function Sum(widths: seq<nat>): nat { if widths == [] then 0 else widths[0] + 1 + Sum(widths[1..]) }

  lemma {:induction false} LineLength(fields: seq<nat>, widths: seq<nat>)
    requires |fields| == |widths| && forall i :: 0 <= i < |fields| ==> widths[i] > 0 && fields[i] < SixteenTo(widths[i])
    ensures |LineOf(fields)| <= Sum(widths)
  {
    if fields == [] {
    } else {
      HexLength(fields[0], widths[0]);
      LineLength(fields[1..], widths[1..]);
    }
  }

  lemma PowersOfSixteen()
    ensures SixteenTo(1) == 0x10 && SixteenTo(2) == 0x100 && SixteenTo(4) == 0x1_0000
    ensures SixteenTo(8) == 0x1_0000_0000 && SixteenTo(16) == 0x1_0000_0000_0000_0000
  {
    assert SixteenTo(4) == 0x1_0000;
    assert SixteenTo(8) == 0x1_0000_0000;
    assert SixteenTo(12) == 0x1_0000_0000_0000;
    assert SixteenTo(16) == 0x1_0000_0000_0000_0000;
  }

  /** Every record in range fits the row buffer. */
  lemma LineFits(r: Row)
    requires InRange(r)
    ensures |LineOf(FieldsOf(r))| <= 69
  {
    PowersOfSixteen();
    LineLength(FieldsOf(r), Widths());
    WidthSum();
  }

  lemma WidthSum()
    ensures Sum(Widths()) == 69
  {}

  lemma FirstLineOf(line: string, tail: string)
    requires |line| < ROW_BUFFER - 1 && forall i :: 0 <= i < |line| ==> line[i] != '\n' && line[i] != NUL
    ensures FirstLine(line + ['\n'] + tail) == line && AfterLine(line + ['\n'] + tail, line) == tail
  {
    var rest := line + ['\n'] + tail;
    WholeUpTo(line, NUL);
    if |rest| >= ROW_BUFFER {
      var cut := rest[..ROW_BUFFER - 1];
      var t := cut[|line| + 1..];
      assert cut == line + ['\n'] + t;
      UpToConcat(line, '\n', t);
    } else {
      UpToConcat(line, '\n', tail);
    }
  }

  /** A line that is longer than the buffer is read in two, and the character between them is lost. */
  lemma LongLineSplits(a: string, c: char, tail: string)
    requires |a| == ROW_BUFFER - 1 && forall i :: 0 <= i < |a| ==> a[i] != '\n' && a[i] != NUL
    ensures FirstLine(a + [c] + tail) == a && AfterLine(a + [c] + tail, a) == tail
  {
    var rest := a + [c] + tail;
    assert rest[..ROW_BUFFER - 1] == a;
    WholeUpTo(a, '\n');
    WholeUpTo(a, NUL);
  }

  /** The last line needs no newline. */
  lemma LastLine(a: string)
    requires |a| < ROW_BUFFER && forall i :: 0 <= i < |a| ==> a[i] != '\n' && a[i] != NUL
    ensures FirstLine(a) == a && AfterLine(a, a) == []
  {
    WholeUpTo(a, '\n');
    WholeUpTo(a, NUL);
  }

  lemma LoadFirst(rows: seq<Row>, line: string)
    requires rows != [] && line == LineOf(FieldsOf(rows[0]))
    requires |Tokens(line)| <= MAX_TOKENS && Parse(line) == Some(rows[0]) && TokensFit(Save(rows[1..]))
    requires FirstLine(line + ['\n'] + Save(rows[1..])) == line
    requires AfterLine(line + ['\n'] + Save(rows[1..]), line) == Save(rows[1..])
    ensures TokensFit(Save(rows)) && Load(Save(rows)) == [rows[0]] + Load(Save(rows[1..]))
  {
    assert Save(rows) == line + ['\n'] + Save(rows[1..]);
  }

  /** Loading a file of saved records calls back with exactly those records, in order. */
  lemma {:induction false} FileRoundTrip(rows: seq<Row>)
    requires forall i :: 0 <= i < |rows| ==> InRange(rows[i])
    ensures TokensFit(Save(rows)) && Load(Save(rows)) == rows
  {
    if rows == [] {
    } else {
      var r, rest := rows[0], rows[1..];
      var line := LineOf(FieldsOf(r));
      LineChars(FieldsOf(r));
      LineFits(r);
      LineRoundTripIff(r);
      FirstLineOf(line, Save(rest));
      FileRoundTrip(rest);
      LoadFirst(rows, line);
    }
  }

  /** Saving records one by one to an empty file and loading it. */
  method SaveThenLoad(file: NodeFile, rows: seq<Row>) returns (loaded: seq<Row>)
    requires file.content == [] && forall i :: 0 <= i < |rows| ==> InRange(rows[i])
    modifies file
    ensures loaded == rows
  {
    var i := 0;
    while i < |rows|
      invariant 0 <= i <= |rows| && file.content == Save(rows[..i])
    {
      LineFits(rows[i]);
      SaveLast(rows[..i], rows[i]);
      assert rows[..i + 1] == rows[..i] + [rows[i]];
      var ok := file.SaveNode(rows[i]);
      i := i + 1;
    }
    assert rows[..i] == rows;
    FileRoundTrip(rows);
    loaded := file.LoadNodes();
  }

  lemma {:induction false} SaveLast(rows: seq<Row>, r: Row)
    ensures Save(rows + [r]) == Save(rows) + LineOf(FieldsOf(r)) + ['\n']
  {
    var all := rows + [r];
    if rows == [] {
      assert all[1..] == [];
    } else {
      assert all[1..] == rows[1..] + [r];
      SaveLast(rows[1..], r);
    }
  }
}
