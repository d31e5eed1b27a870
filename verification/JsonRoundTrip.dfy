/**
 Decoding what the encoder wrote: every object of plain keys with integers, booleans,
 strings and arrays of integers or booleans comes back exactly, in any order of entries.
 */
module JsonRoundTrip {
  import opened CText
  import opened Common
  import opened JsonEncode
  import opened JsonDecode

  // ----- The fragment -----

  predicate PlainKey(key: string) {
    |key| < ATTR_MAX && forall i :: 0 <= i < |key| ==> key[i] != '"' && key[i] != NUL
  }

  predicate NulFree(s: string) { forall i :: 0 <= i < |s| ==> s[i] != NUL }

  predicate FitsElem(t: ElemType, v: Value) {
    match t
    case EInt => v.Int? && -I64_LIMIT <= v.i < I64_LIMIT
    case EUInt => v.UInt? && v.u < U64_LIMIT
    case EBool => v.Bool?
  }

  /** The value is of the attribute's type and within its bounds. */
  predicate Fits(kind: FieldType, v: Value) {
    match kind
    case TInt => FitsElem(EInt, v)
    case TUInt => FitsElem(EUInt, v)
    case TBool => v.Bool?
    case TStr(len) => v.Str? && NulFree(v.s) && |v.s| < len && |v.s| <= VAL_MAX
    case TArr(t, maxlen) =>
      v.Arr? && 1 <= |v.elems| <= maxlen && forall i :: 0 <= i < |v.elems| ==> FitsElem(t, v.elems[i])
  }

  predicate DistinctNames(specs: seq<Spec>) {
    forall i, j :: 0 <= i < j < |specs| ==> specs[i].name != specs[j].name
  }

  predicate FitsTemplate(specs: seq<Spec>, e: Entry) {
    var k := FindAttr(specs, e.key, 0);
    PlainKey(e.key) && k < |specs| && Fits(specs[k].kind, e.value)
  }

  /** What memory should hold after reading a value (nested objects are outside the fragment). */
  function Meaning(v: Value): Stored
    decreases v, 1
  {
    match v
    case Bool(b) => VBool(b)
    case UInt(u) => VUInt(u)
    case Int(i) => VInt(i)
    case Str(s) => VStr(s)
    case Arr(elems) => VArr(Meanings(elems))
    case Obj(_) => VArr([])
  }

  function Meanings(elems: seq<Value>): (r: seq<Stored>)
    ensures |r| == |elems|
    decreases elems, 0
  {
    if elems == [] then [] else [Meaning(elems[0])] + Meanings(elems[1..])
  }

  function WriteOf(specs: seq<Spec>, e: Entry): Write {
    Write(FindAttr(specs, e.key, 0), Meaning(e.value))
  }

  /** The writes that should come from some entries. */
  function Writes(specs: seq<Spec>, entries: seq<Entry>): Store {
    if entries == [] then []
    else [WriteOf(specs, entries[0])] + Writes(specs, entries[1..])
  }

  // ----- Pieces of text -----

  ghost predicate At(text: string, pos: nat, piece: string) {
    pos + |piece| <= |text| && forall i :: 0 <= i < |piece| ==> text[pos + i] == piece[i]
  }

  lemma AtChar(text: string, pos: nat, piece: string)
    requires At(text, pos, piece) && piece != []
    ensures pos < |text| && text[pos] == piece[0] && At(text, pos + 1, piece[1..])
  {
    assert text[pos + 0] == piece[0];
    forall i | 0 <= i < |piece[1..]| ensures text[pos + 1 + i] == piece[1..][i] {
      assert text[pos + (i + 1)] == piece[i + 1];
    }
  }

  lemma AtSplit(text: string, pos: nat, a: string, b: string)
    requires At(text, pos, a + b)
    ensures At(text, pos, a) && At(text, pos + |a|, b)
  {
    forall i | 0 <= i < |a| ensures text[pos + i] == a[i] {
      assert (a + b)[i] == a[i];
    }
    forall i | 0 <= i < |b| ensures text[pos + |a| + i] == b[i] {
      assert text[pos + (|a| + i)] == (a + b)[|a| + i];
    }
  }

  // ----- Runs -----

  /** The rest of a run as a function of the machine and the cursor. */
  type Runner = (Machine, nat) -> Final

  function RunnerOf(specs: seq<Spec>, text: string): Runner {
    (m: Machine, pos: nat) => if Ready(specs, m) && pos <= |text| then Run(specs, m, text, pos) else Final(OK, m.store)
  }

  /** The reader takes the step `o` at `pos`. */
  ghost predicate Fires(specs: seq<Spec>, text: string, m: Machine, pos: nat, o: Outcome) {
    Ready(specs, m) && pos < |text| && text[pos] != NUL && o == Step(specs, m, text[pos], text, pos + 1)
  }

  /** A runner that takes the reader's steps. */
  ghost predicate Executes(specs: seq<Spec>, text: string, run: Runner) {
    forall m, pos: nat, o {:trigger Fires(specs, text, m, pos, o)} :: Fires(specs, text, m, pos, o) ==>
      run(m, pos) == if o.Return? then Final(o.rc, o.store) else run(o.m, o.pos)
  }

  lemma RunnerExecutes(specs: seq<Spec>, text: string)
    ensures Executes(specs, text, RunnerOf(specs, text))
  {
    var run := RunnerOf(specs, text);
    forall m, pos: nat, o | Fires(specs, text, m, pos, o)
      ensures run(m, pos) == if o.Return? then Final(o.rc, o.store) else run(o.m, o.pos)
    {
      StepProgress(specs, m, text, pos);
    }
  }

  /** One step of the object reader. */
  lemma RunStep(specs: seq<Spec>, text: string, run: Runner, m: Machine, pos: nat, o: Outcome)
    requires Executes(specs, text, run)
    requires Ready(specs, m) && pos < |text| && text[pos] != NUL && o == Step(specs, m, text[pos], text, pos + 1)
    ensures run(m, pos) == if o.Return? then Final(o.rc, o.store) else run(o.m, o.pos)
  {
    assert Fires(specs, text, m, pos, o);
  }

  // ----- Keys, tokens and strings -----

  lemma KeyChar(specs: seq<Spec>, text: string, run: Runner, m: Machine, pos: nat)
    requires Executes(specs, text, run)
    requires m.st.InAttr? && |m.attr| < ATTR_MAX - 1 && pos < |text| && text[pos] != '"' && text[pos] != NUL
    ensures run(m, pos) == run(m.(attr := m.attr + [text[pos]]), pos + 1)
  {
    RunStep(specs, text, run, m, pos, Continue(m.(attr := m.attr + [text[pos]]), pos + 1));
  }

  lemma TokenStep(specs: seq<Spec>, text: string, run: Runner, m: Machine, pos: nat)
    requires Executes(specs, text, run)
    requires m.st.InValToken? && m.cursor < |specs| && |m.val| < VAL_MAX && pos < |text| && TokenChar(text[pos])
    ensures run(m, pos) == run(m.(val := m.val + [text[pos]]), pos + 1)
  {
    RunStep(specs, text, run, m, pos, Continue(m.(val := m.val + [text[pos]]), pos + 1));
  }

  /** A token ends before a comma or brace, which is pushed back. */
  lemma TokenEnd(specs: seq<Spec>, text: string, run: Runner, m: Machine, pos: nat)
    requires Executes(specs, text, run)
    requires m.st.InValToken? && m.cursor < |specs| && pos < |text| && text[pos] in {',', '}'}
    ensures run(m, pos) == run(m.(st := PostVal), pos)
  {
    RunStep(specs, text, run, m, pos, Continue(m.(st := PostVal), pos));
  }

  /** A token begins with any other character. */
  lemma TokenBegin(specs: seq<Spec>, text: string, run: Runner, m: Machine, pos: nat)
    requires Executes(specs, text, run)
    requires m.st.AwaitValue? && m.cursor < |specs| && pos < |text| && TokenChar(text[pos])
    requires text[pos] !in {'"', '[', ':'} && !specs[m.cursor].kind.TArr?
    ensures run(m, pos) == run(m.(st := InValToken, quoted := false, val := [text[pos]]), pos + 1)
  {
    RunStep(specs, text, run, m, pos, Continue(m.(st := InValToken, quoted := false, val := [text[pos]]), pos + 1));
  }

  lemma StringBegin(specs: seq<Spec>, text: string, run: Runner, m: Machine, pos: nat)
    requires Executes(specs, text, run)
    requires m.st.AwaitValue? && m.cursor < |specs| && pos < |text| && text[pos] == '"' && !specs[m.cursor].kind.TArr?
    ensures run(m, pos) == run(m.(st := InValString, quoted := true, val := ""), pos + 1)
  {
    RunStep(specs, text, run, m, pos, Continue(m.(st := InValString, quoted := true, val := ""), pos + 1));
  }

  lemma StringEnd(specs: seq<Spec>, text: string, run: Runner, m: Machine, pos: nat)
    requires Executes(specs, text, run)
    requires m.st.InValString? && m.cursor < |specs| && pos < |text| && text[pos] == '"'
    ensures run(m, pos) == run(m.(st := PostVal), pos + 1)
  {
    RunStep(specs, text, run, m, pos, Continue(m.(st := PostVal), pos + 1));
  }

  lemma KeyBegin(specs: seq<Spec>, text: string, run: Runner, m: Machine, pos: nat)
    requires Executes(specs, text, run)
    requires m.st.AwaitAttr? && pos < |text| && text[pos] == '"'
    ensures run(m, pos) == run(m.(st := InAttr, attr := ""), pos + 1)
  {
    RunStep(specs, text, run, m, pos, Continue(m.(st := InAttr, attr := ""), pos + 1));
  }

  lemma {:induction false} KeyRun(specs: seq<Spec>, text: string, run: Runner, m: Machine, pos: nat, key: string)
    requires Executes(specs, text, run)
    requires m.st.InAttr? && At(text, pos, key) && |m.attr| + |key| < ATTR_MAX
    requires forall i :: 0 <= i < |key| ==> key[i] != '"' && key[i] != NUL
    ensures run(m, pos) == run(m.(attr := m.attr + key), pos + |key|)
    decreases |key|
  {
    if key == [] {
      assert m.attr + key == m.attr;
    } else {
      AtChar(text, pos, key);
      var m1 := m.(attr := m.attr + [key[0]]);
      KeyChar(specs, text, run, m, pos);
      KeyRun(specs, text, run, m1, pos + 1, key[1..]);
      assert m1.attr + key[1..] == m.attr + key;
    }
  }

  predicate TokenChar(c: char) { !IsSpace(c) && c != ',' && c != '}' && c != NUL }

  lemma {:induction false} TokenRun(specs: seq<Spec>, text: string, run: Runner, m: Machine, pos: nat, tok: string)
    requires Executes(specs, text, run)
    requires m.st.InValToken? && m.cursor < |specs| && At(text, pos, tok) && |m.val| + |tok| <= VAL_MAX
    requires forall i :: 0 <= i < |tok| ==> TokenChar(tok[i])
    ensures run(m, pos) == run(m.(val := m.val + tok), pos + |tok|)
    decreases |tok|
  {
    if tok == [] {
      assert m.val + tok == m.val;
    } else {
      AtChar(text, pos, tok);
      var m1 := m.(val := m.val + [tok[0]]);
      TokenStep(specs, text, run, m, pos);
      TokenRun(specs, text, run, m1, pos + 1, tok[1..]);
      assert m1.val + tok[1..] == m.val + tok;
    }
  }

  /** An escaped character in a string. */
  lemma EscapeRun(specs: seq<Spec>, text: string, run: Runner, m: Machine, pos: nat, x: char)
    requires Executes(specs, text, run)
    requires m.st.InValString? && m.cursor < |specs| && At(text, pos, ['\\', x]) && x != NUL && x != 'u'
    ensures run(m, pos) == run(m.(val := m.val + [Unescape(x)]), pos + 2)
  {
    AtChar(text, pos, ['\\', x]);
    AtChar(text, pos + 1, [x]);
    var m1 := m.(st := InEscape);
    RunStep(specs, text, run, m, pos, Continue(m1, pos + 1));
    RunStep(specs, text, run, m1, pos + 1, Continue(m.(val := m.val + [Unescape(x)]), pos + 2));
  }

  /** An unescaped character in a string. */
  lemma LiteralRun(specs: seq<Spec>, text: string, run: Runner, m: Machine, pos: nat, c: char)
    requires Executes(specs, text, run)
    requires m.st.InValString? && m.cursor < |specs| && At(text, pos, [c]) && c != NUL && c != '"' && c != '\\'
    requires |m.val| < VAL_MAX && |m.val| <= m.maxlen
    ensures run(m, pos) == run(m.(val := m.val + [c]), pos + 1)
  {
    AtChar(text, pos, [c]);
    RunStep(specs, text, run, m, pos, Continue(m.(val := m.val + [c]), pos + 1));
  }

  /** The two shapes of an escaped character. */
  lemma EscapeShape(c: char) returns (x: char)
    ensures
      || (EscapeChar(c) == [c] && c != '"' && c != '\\')
      || (EscapeChar(c) == ['\\', x] && Unescape(x) == c && x != NUL && x != 'u')
  {
    x := if |EscapeChar(c)| == 1 then c else EscapeChar(c)[1];
  }

  /** One character of a string, escaped or not. */
  lemma CharRun(specs: seq<Spec>, text: string, run: Runner, m: Machine, pos: nat, c: char, e: string)
    requires Executes(specs, text, run)
    requires m.st.InValString? && m.cursor < |specs| && At(text, pos, e) && c != NUL && e == EscapeChar(c)
    requires |m.val| < VAL_MAX && |m.val| <= m.maxlen
    ensures run(m, pos) == run(m.(val := m.val + [c]), pos + |e|)
  {
    var x := EscapeShape(c);
    if e == [c] && c != '"' && c != '\\' {
      LiteralRun(specs, text, run, m, pos, c);
    } else {
      EscapeRun(specs, text, run, m, pos, x);
    }
  }

  /** The first of several characters. */
  lemma FirstChar(specs: seq<Spec>, text: string, run: Runner, m: Machine, pos: nat, c: char, e: string, rest: string)
    requires Executes(specs, text, run)
    requires m.st.InValString? && m.cursor < |specs| && c != NUL && e == EscapeChar(c) && At(text, pos, e + rest)
    requires |m.val| < VAL_MAX && |m.val| <= m.maxlen
    ensures run(m, pos) == run(m.(val := m.val + [c]), pos + |e|)
    ensures At(text, pos + |e|, rest)
  {
    AtSplit(text, pos, e, rest);
    CharRun(specs, text, run, m, pos, c, e);
  }

  lemma {:induction false} StringRun(specs: seq<Spec>, text: string, run: Runner, m: Machine, pos: nat, s: string,
                                     end: nat)
    requires Executes(specs, text, run)
    requires m.st.InValString? && m.cursor < |specs| && NulFree(s)
    requires At(text, pos, Escape(s)) && end == pos + |Escape(s)|
    requires |m.val| + |s| <= VAL_MAX && |m.val| + |s| <= m.maxlen + 1
    ensures run(m, pos) == run(m.(val := m.val + s), end)
    decreases |s|
  {
    if s == [] {
      assert m.val + s == m.val;
    } else {
      var e := EscapeChar(s[0]);
      FirstChar(specs, text, run, m, pos, s[0], e, Escape(s[1..]));
      var n := m.(val := m.val + [s[0]]);
      StringRun(specs, text, run, n, pos + |e|, s[1..], end);
      assert n.val + s[1..] == m.val + s;
    }
  }

  lemma {:induction false} CStringOf(s: string)
    requires NulFree(s)
    ensures CString(s) == s
  {
    if s == [] {
    } else {
      CStringOf(s[1..]);
    }
  }

  // ----- Arrays -----

  lemma NoSpace(text: string, pos: nat)
    requires pos < |text| && !IsSpace(text[pos])
    ensures SkipWs(text, pos) == pos
  {}

  lemma {:induction false} ChunkSplit(text: string, pos: nat, piece: string, size: nat)
    requires At(text, pos, piece) && |piece| <= size
    ensures Chunk(text, pos, size) == piece + Chunk(text, pos + |piece|, size - |piece|)
    decreases |piece|
  {
    if piece == [] {
    } else {
      AtChar(text, pos, piece);
      ChunkSplit(text, pos + 1, piece[1..], size - 1);
      assert piece == [piece[0]] + piece[1..];
    }
  }

  /** The block read for a number is the number followed by text that does not continue it. */
  lemma ChunkEnds(text: string, pos: nat, p: string)
    requires At(text, pos, p) && |p| < 63 && pos + |p| < |text| && DigitValue(text[pos + |p|]) == 99
    ensures Chunk(text, pos, 63) == p + Chunk(text, pos + |p|, 63 - |p|)
    ensures EndsNumber(Chunk(text, pos + |p|, 63 - |p|))
  {
    ChunkSplit(text, pos, p, 63);
    var rest := Chunk(text, pos + |p|, 63 - |p|);
    assert rest[0] == text[pos + |p|];
  }

  lemma ReadIntPrinted(text: string, pos: nat, n: int, p: string)
    requires -I64_LIMIT <= n < I64_LIMIT && p == SignedDecimal(n) && At(text, pos, p)
    requires pos + |p| < |text| && DigitValue(text[pos + |p|]) == 99
    ensures ReadElem(text, pos, EInt) == ElemOk(VInt(n), pos + |p|)
  {
    SignedFits(n);
    ChunkEnds(text, pos, p);
    ScanPrintedI64(n, Chunk(text, pos + |p|, 63 - |p|));
  }

  lemma ReadUIntPrinted(text: string, pos: nat, n: nat, p: string)
    requires n < U64_LIMIT && p == Decimal(n) && At(text, pos, p)
    requires pos + |p| < |text| && DigitValue(text[pos + |p|]) == 99
    ensures ReadElem(text, pos, EUInt) == ElemOk(VUInt(n), pos + |p|)
  {
    DecimalFits(n);
    ChunkEnds(text, pos, p);
    ScanPrintedU64(n, Chunk(text, pos + |p|, 63 - |p|));
  }

  lemma ReadBoolPrinted(text: string, pos: nat, b: bool, p: string)
    requires p == (if b then "true" else "false") && At(text, pos, p)
    ensures ReadElem(text, pos, EBool) == ElemOk(VBool(b), pos + |p|)
  {
    ChunkSplit(text, pos, p, 5);
    var s := Chunk(text, pos, 5);
    assert s[..|p|] == p;
    assert s[0] == p[0];
  }

  lemma ReadElemPrinted(text: string, pos: nat, t: ElemType, v: Value)
    requires FitsElem(t, v) && At(text, pos, Print(v)) && pos + |Print(v)| < |text|
    requires DigitValue(text[pos + |Print(v)|]) == 99
    ensures ReadElem(text, pos, t) == ElemOk(Meaning(v), pos + |Print(v)|)
    ensures 0 < |Print(v)| && !IsSpace(Print(v)[0]) && Print(v)[0] != ']'
  {
    match t
    case EInt => ReadIntPrinted(text, pos, v.i, Print(v));
    case EUInt => ReadUIntPrinted(text, pos, v.u, Print(v));
    case EBool => ReadBoolPrinted(text, pos, v.b, Print(v));
  }

  /** What follows the first element: the closing bracket, or a comma and the other elements. */
  lemma ElemsText(elems: seq<Value>) returns (tail: string)
    requires elems != []
    ensures PrintElems(elems) + [']'] == Print(elems[0]) + tail
    ensures |elems| == 1 ==> tail == [']']
    ensures |elems| > 1 ==> tail != [] && tail[0] == ',' && tail[1..] == PrintElems(elems[1..]) + [']']
  {
    tail := CommaIf(|elems| > 1) + (PrintElems(elems[1..]) + [']']);
  }

  /** A printed element followed by something that does not continue it. */
  ghost predicate ElemAt(text: string, pos: nat, t: ElemType, v: Value) {
    && FitsElem(t, v) && At(text, pos, Print(v))
    && pos + |Print(v)| < |text| && DigitValue(text[pos + |Print(v)|]) == 99
  }

  /** A reader that reads printed elements back. */
  ghost predicate ReadsBack(text: string, t: ElemType, read: ElemReader) {
    forall pos: nat, v: Value {:trigger ElemAt(text, pos, t, v)} :: ElemAt(text, pos, t, v) ==>
      && read(pos) == ElemOk(Meaning(v), pos + |Print(v)|)
      && 0 < |Print(v)| && !IsSpace(text[pos]) && text[pos] != ']'
  }

  lemma ElemAtReadsBack(text: string, pos: nat, t: ElemType, v: Value)
    requires ElemAt(text, pos, t, v)
    ensures ReadElem(text, pos, t) == ElemOk(Meaning(v), pos + |Print(v)|)
    ensures 0 < |Print(v)| && !IsSpace(text[pos]) && text[pos] != ']'
  {
    ReadElemPrinted(text, pos, t, v);
    AtChar(text, pos, Print(v));
  }

  lemma ReaderReadsBack(text: string, t: ElemType)
    ensures ReadsBack(text, t, ReaderOf(text, t))
  {
    forall pos: nat, v: Value | ElemAt(text, pos, t, v)
      ensures ReaderOf(text, t)(pos) == ElemOk(Meaning(v), pos + |Print(v)|)
      ensures 0 < |Print(v)| && !IsSpace(text[pos]) && text[pos] != ']'
    {
      ElemAtReadsBack(text, pos, t, v);
    }
  }

  predicate Yields(r: ArrayResult, elems: seq<Stored>, pos: nat) {
    r.ArrayOk? && r.elems == elems && r.pos == pos
  }

  /** The element loop stops at the bracket. */
  lemma LastElem(text: string, pos: nat, read: ElemReader, room: nat, v: Stored, q: nat)
    requires Advances(text, read) && room > 0 && pos < q < |text| && !IsSpace(text[pos]) && read(pos) == ElemOk(v, q)
    requires text[q] == ']'
    ensures Yields(ReadElems(text, pos, read, room), [v], q + 1)
  {
    NoSpace(text, pos);
    NoSpace(text, q);
  }

  /** The element loop goes on after a comma. */
  lemma MoreElems(text: string, pos: nat, read: ElemReader, room: nat, v: Stored, q: nat, xs: seq<Stored>, end: nat)
    requires Advances(text, read) && room > 0 && pos < q < |text| && !IsSpace(text[pos]) && read(pos) == ElemOk(v, q)
    requires text[q] == ',' && Yields(ReadElems(text, q + 1, read, room - 1), xs, end)
    ensures Yields(ReadElems(text, pos, read, room), [v] + xs, end)
  {
    NoSpace(text, pos);
    NoSpace(text, q);
  }

  /** The first of the elements, up to the character after it at `q`. */
  lemma ReadFirst(text: string, pos: nat, t: ElemType, read: ElemReader, elems: seq<Value>) returns (q: nat)
    requires ReadsBack(text, t, read) && elems != [] && FitsElem(t, elems[0])
    requires At(text, pos, PrintElems(elems) + [']'])
    ensures pos < q < |text| && !IsSpace(text[pos]) && text[pos] != ']' && read(pos) == ElemOk(Meaning(elems[0]), q)
    ensures |elems| == 1 ==> text[q] == ']' && q == pos + |PrintElems(elems)|
    ensures |elems| > 1 ==> text[q] == ',' && At(text, q + 1, PrintElems(elems[1..]) + [']'])
                            && q + 1 + |PrintElems(elems[1..])| == pos + |PrintElems(elems)|
  {
    var tail := ElemsText(elems);
    var p := Print(elems[0]);
    AtSplit(text, pos, p, tail);
    q := pos + |p|;
    AtChar(text, q, tail);
    assert ElemAt(text, pos, t, elems[0]);
    assert |PrintElems(elems)| + 1 == |PrintElems(elems) + [']']| == |p| + |tail|;
  }

  /** The elements of an array and its closing bracket, up to `end`. */
  lemma {:induction false} ReadElemsPrinted(text: string, pos: nat, t: ElemType, read: ElemReader,
                                            elems: seq<Value>, room: nat, end: nat)
    requires Advances(text, read) && ReadsBack(text, t, read)
    requires 1 <= |elems| <= room && forall i :: 0 <= i < |elems| ==> FitsElem(t, elems[i])
    requires At(text, pos, PrintElems(elems) + [']']) && end == pos + |PrintElems(elems)| + 1
    ensures Yields(ReadElems(text, pos, read, room), Meanings(elems), end)
    ensures pos < |text| && !IsSpace(text[pos]) && text[pos] != ']'
    decreases |elems|
  {
    var q := ReadFirst(text, pos, t, read, elems);
    var x := Meaning(elems[0]);
    var rest := elems[1..];
    assert Meanings(elems) == [x] + Meanings(rest);
    if |elems| == 1 {
      LastElem(text, pos, read, room, x, q);
    } else {
      ReadElemsPrinted(text, q + 1, t, read, rest, room - 1, end);
      MoreElems(text, pos, read, room, x, q, Meanings(rest), end);
    }
  }

  /** Past the opening bracket, `json_read_array` is the element loop. */
  lemma ArrayBegin(text: string, pos: nat, read: ElemReader, maxlen: nat)
    requires pos + 1 < |text| && text[pos] == '[' && !IsSpace(text[pos + 1]) && text[pos + 1] != ']'
    requires Advances(text, read)
    ensures ReadArray(text, pos, read, maxlen) == ReadElems(text, pos + 1, read, maxlen)
  {
    NoSpace(text, pos);
    NoSpace(text, pos + 1);
  }

  lemma ReadArrayPrinted(text: string, pos: nat, t: ElemType, read: ElemReader, maxlen: nat, elems: seq<Value>)
    requires Advances(text, read) && ReadsBack(text, t, read)
    requires 1 <= |elems| <= maxlen && forall i :: 0 <= i < |elems| ==> FitsElem(t, elems[i])
    requires At(text, pos, ['['] + (PrintElems(elems) + [']']))
    ensures Yields(ReadArray(text, pos, read, maxlen), Meanings(elems), pos + |PrintElems(elems)| + 2)
  {
    AtSplit(text, pos, ['['], PrintElems(elems) + [']']);
    AtChar(text, pos, ['[']);
    ReadElemsPrinted(text, pos + 1, t, read, elems, maxlen, pos + |PrintElems(elems)| + 2);
    ArrayBegin(text, pos, read, maxlen);
  }

  // ----- Values -----

  lemma {:induction false} FindDistinct(specs: seq<Spec>, name: string, i: nat, k: nat)
    requires DistinctNames(specs) && i <= k < |specs| && specs[k].name == name
    ensures FindAttr(specs, name, i) == k
    decreases k - i
  {
    if i >= k {
    } else {
      FindDistinct(specs, name, i + 1, k);
    }
  }

  lemma SeekStays(specs: seq<Spec>, m: Machine, val: string, quoted: bool)
    requires DistinctNames(specs) && m.cursor < |specs| && specs[m.cursor].name == m.attr
    ensures SeekType(specs, m.attr, val, quoted, m.cursor) == m.cursor
  {}

  /** The printed form of a number or boolean is one token that converts to what was printed. */
  lemma TokenOf(kind: FieldType, v: Value)
    requires Fits(kind, v) && !kind.TStr? && !kind.TArr?
    ensures var p := Print(v);
            && 0 < |p| <= VAL_MAX && (forall i :: 0 <= i < |p| ==> TokenChar(p[i])) && NulFree(p)
            && p[0] != '"' && p[0] != '[' && p[0] != ':' && Convert(kind, p) == Some(Meaning(v))
  {
    var p := Print(v);
    assert p + "" == p;
    match kind
    case TInt => SignedFits(v.i); ScanPrintedI64(v.i, "");
    case TUInt => DecimalFits(v.u); ScanPrintedU64(v.u, "");
    case TBool =>
  }

  /** State `post_val` for a value that converts to `x`. */
  lemma PostValStep(specs: seq<Spec>, m: Machine, text: string, pos: nat, x: Stored)
    requires DistinctNames(specs) && m.cursor < |specs| && specs[m.cursor].name == m.attr && NulFree(m.val)
    requires m.quoted == specs[m.cursor].kind.TStr? && Convert(specs[m.cursor].kind, m.val) == Some(x)
    requires pos < |text| && m.st.PostVal?
    ensures Step(specs, m, text[pos], text, pos + 1)
         == AfterValue(m.(store := m.store + [Write(m.cursor, x)]), text[pos], pos + 1)
  {
    CStringOf(m.val);
    SeekStays(specs, m, m.val, m.quoted);
    var store := m.store + [Write(m.cursor, x)];
    assert m.(cursor := m.cursor, store := store) == m.(store := store);
  }

  /** Where the reader stands when the value has been read up to the character after it. */
  function AtEnd(specs: seq<Spec>, m: Machine, v: Value): Machine
    requires m.cursor < |specs| && Fits(specs[m.cursor].kind, v)
  {
    match specs[m.cursor].kind
    case TArr(_, _) => m.(st := PostArray, store := m.store + [Write(m.cursor, Meaning(v))])
    case TStr(_) => m.(st := PostVal, quoted := true, val := v.s)
    case _ => m.(st := PostVal, quoted := false, val := Print(v))
  }

  /** A whole token. */
  lemma WholeToken(specs: seq<Spec>, text: string, run: Runner, m: Machine, pos: nat, p: string, end: nat)
    requires Executes(specs, text, run)
    requires m.st.AwaitValue? && m.cursor < |specs| && !specs[m.cursor].kind.TArr?
    requires 0 < |p| <= VAL_MAX && (forall i :: 0 <= i < |p| ==> TokenChar(p[i])) && p[0] !in {'"', '[', ':'}
    requires At(text, pos, p) && end == pos + |p| && end < |text| && text[end] in {',', '}'}
    ensures run(m, pos) == run(m.(st := PostVal, quoted := false, val := p), end)
  {
    AtChar(text, pos, p);
    var m1 := m.(st := InValToken, quoted := false, val := [p[0]]);
    TokenBegin(specs, text, run, m, pos);
    TokenRun(specs, text, run, m1, pos + 1, p[1..]);
    assert [p[0]] + p[1..] == p;
    TokenEnd(specs, text, run, m1.(val := p), end);
  }

  lemma TokenValue(specs: seq<Spec>, text: string, run: Runner, m: Machine, pos: nat, v: Value)
    requires Executes(specs, text, run)
    requires m.st.AwaitValue? && m.cursor < |specs| && Fits(specs[m.cursor].kind, v)
    requires !specs[m.cursor].kind.TStr? && !specs[m.cursor].kind.TArr?
    requires At(text, pos, Print(v)) && pos + |Print(v)| < |text| && text[pos + |Print(v)|] in {',', '}'}
    ensures run(m, pos) == run(AtEnd(specs, m, v), pos + |Print(v)|)
  {
    TokenOf(specs[m.cursor].kind, v);
    WholeToken(specs, text, run, m, pos, Print(v), pos + |Print(v)|);
  }

  /** The body of a string and its closing quote. */
  lemma StringEndRun(specs: seq<Spec>, text: string, run: Runner, m: Machine, pos: nat, s: string)
    requires Executes(specs, text, run)
    requires m.st.InValString? && m.cursor < |specs| && m.val == "" && NulFree(s) && |s| <= VAL_MAX
    requires |s| <= m.maxlen + 1
    requires At(text, pos, Escape(s) + ['"'])
    ensures run(m, pos) == run(m.(st := PostVal, val := s), pos + |Escape(s)| + 1)
  {
    AtSplit(text, pos, Escape(s), ['"']);
    var end := pos + |Escape(s)|;
    StringRun(specs, text, run, m, pos, s, end);
    assert m.val + s == s;
    AtChar(text, end, ['"']);
    StringEnd(specs, text, run, m.(val := s), end);
  }

  lemma StringValue(specs: seq<Spec>, text: string, run: Runner, m: Machine, pos: nat, v: Value)
    requires Executes(specs, text, run)
    requires m.st.AwaitValue? && m.cursor < |specs| && Fits(specs[m.cursor].kind, v)
    requires specs[m.cursor].kind.TStr? && m.maxlen == specs[m.cursor].kind.len - 1
    requires At(text, pos, Print(v))
    ensures run(m, pos) == run(AtEnd(specs, m, v), pos + |Print(v)|)
  {
    var tail := Escape(v.s) + ['"'];
    assert Print(v) == ['"'] + tail;
    AtSplit(text, pos, ['"'], tail);
    AtChar(text, pos, ['"']);
    var m1 := m.(st := InValString, quoted := true, val := "");
    StringBegin(specs, text, run, m, pos);
    StringEndRun(specs, text, run, m1, pos + 1, v.s);
  }

  lemma AwaitArray(specs: seq<Spec>, text: string, m: Machine, pos: nat, xs: seq<Stored>, end: nat)
    requires m.cursor < |specs| && specs[m.cursor].kind.TArr? && pos < |text| && text[pos] == '['
    requires var kind := specs[m.cursor].kind;
             Yields(ReadArray(text, pos, ReaderOf(text, kind.elem), kind.maxlen), xs, end)
    ensures OnAwaitValue(specs, m, text[pos], text, pos + 1)
         == Continue(m.(st := PostArray, store := m.store + [Write(m.cursor, VArr(xs))]), end)
  {}

  lemma ArrayStep(specs: seq<Spec>, text: string, run: Runner, m: Machine, pos: nat, n: Machine, end: nat)
    requires Executes(specs, text, run)
    requires m.st.AwaitValue? && m.cursor < |specs| && pos < |text| && text[pos] != NUL
    requires OnAwaitValue(specs, m, text[pos], text, pos + 1) == Continue(n, end)
    ensures run(m, pos) == run(n, end)
  {
    RunStep(specs, text, run, m, pos, Continue(n, end));
  }

  lemma AwaitPrinted(specs: seq<Spec>, text: string, m: Machine, pos: nat, v: Value, n: Machine, end: nat)
    requires n.st.PostArray? && n == m.(st := n.st, store := m.store + [Write(m.cursor, Meaning(v))])
    requires end == pos + |Print(v)|
    requires m.st.AwaitValue? && m.cursor < |specs| && Fits(specs[m.cursor].kind, v) && specs[m.cursor].kind.TArr?
    requires At(text, pos, Print(v))
    ensures pos < |text| && text[pos] == '['
    ensures OnAwaitValue(specs, m, text[pos], text, pos + 1) == Continue(n, end)
  {
    var kind := specs[m.cursor].kind;
    var p := ['['] + (PrintElems(v.elems) + [']']);
    assert Print(v) == p;
    AtChar(text, pos, p);
    ReaderReadsBack(text, kind.elem);
    ReadArrayPrinted(text, pos, kind.elem, ReaderOf(text, kind.elem), kind.maxlen, v.elems);
    AwaitArray(specs, text, m, pos, Meanings(v.elems), pos + |PrintElems(v.elems)| + 2);
  }

  lemma ArrayValue(specs: seq<Spec>, text: string, run: Runner, m: Machine, pos: nat, v: Value)
    requires Executes(specs, text, run)
    requires m.st.AwaitValue? && m.cursor < |specs| && Fits(specs[m.cursor].kind, v) && specs[m.cursor].kind.TArr?
    requires At(text, pos, Print(v))
    ensures run(m, pos) == run(AtEnd(specs, m, v), pos + |Print(v)|)
  {
    var (n, end) := (AtEnd(specs, m, v), pos + |Print(v)|);
    AwaitPrinted(specs, text, m, pos, v, n, end);
    ArrayStep(specs, text, run, m, pos, n, end);
  }

  lemma ValueRun(specs: seq<Spec>, text: string, run: Runner, m: Machine, pos: nat, v: Value)
    requires Executes(specs, text, run)
    requires m.st.AwaitValue? && m.cursor < |specs| && Fits(specs[m.cursor].kind, v)
    requires m.maxlen == MaxLen(specs[m.cursor].kind, m.maxlen)
    requires At(text, pos, Print(v)) && pos + |Print(v)| < |text| && text[pos + |Print(v)|] in {',', '}'}
    ensures run(m, pos) == run(AtEnd(specs, m, v), pos + |Print(v)|)
  {
    match specs[m.cursor].kind
    case TArr(_, _) => ArrayValue(specs, text, run, m, pos, v);
    case TStr(_) => StringValue(specs, text, run, m, pos, v);
    case _ => TokenValue(specs, text, run, m, pos, v);
  }

  /** The character after the value: everything read is in the store. */
  lemma EndStep(specs: seq<Spec>, text: string, m: Machine, pos: nat, v: Value) returns (n: Machine)
    requires DistinctNames(specs) && m.cursor < |specs| && specs[m.cursor].name == m.attr
    requires Fits(specs[m.cursor].kind, v)
    requires pos < |text|
    ensures n.store == m.store + [Write(m.cursor, Meaning(v))] && n.maxlen == m.maxlen
    ensures Step(specs, AtEnd(specs, m, v), text[pos], text, pos + 1) == AfterValue(n, text[pos], pos + 1)
  {
    n := AtEnd(specs, m, v);
    match specs[m.cursor].kind
    case TArr(_, _) =>
    case TStr(_) =>
      PostValStep(specs, n, text, pos, Meaning(v));
      n := n.(store := m.store + [Write(m.cursor, Meaning(v))]);
    case _ =>
      TokenOf(specs[m.cursor].kind, v);
      PostValStep(specs, n, text, pos, Meaning(v));
      n := n.(store := m.store + [Write(m.cursor, Meaning(v))]);
  }

  /** From the end of the value to the next entry or the end of the object. */
  lemma EndRun(specs: seq<Spec>, text: string, run: Runner, m: Machine, pos: nat, v: Value) returns (n: Machine)
    requires Executes(specs, text, run)
    requires DistinctNames(specs) && m.cursor < |specs| && specs[m.cursor].name == m.attr
    requires Fits(specs[m.cursor].kind, v)
    requires pos < |text| && text[pos] in {',', '}'}
    ensures n.store == m.store + [Write(m.cursor, Meaning(v))] && n.st.AwaitAttr?
    ensures run(AtEnd(specs, m, v), pos) == if text[pos] == '}' then Final(OK, n.store) else run(n, pos + 1)
  {
    n := EndStep(specs, text, m, pos, v);
    RunStep(specs, text, run, AtEnd(specs, m, v), pos, AfterValue(n, text[pos], pos + 1));
    n := n.(st := AwaitAttr);
  }

  // ----- Entries -----

  /** Waiting for the value of attribute `k`. */
  function Awaiting(specs: seq<Spec>, m: Machine, k: nat): Machine
    requires k < |specs|
  {
    m.(st := AwaitValue, attr := specs[k].name, cursor := k, val := "", maxlen := MaxLen(specs[k].kind, m.maxlen))
  }

  lemma KeyQuote(specs: seq<Spec>, text: string, run: Runner, m: Machine, pos: nat)
    requires Executes(specs, text, run)
    requires m.st.InAttr? && FindAttr(specs, m.attr, 0) < |specs| && pos < |text| && text[pos] == '"'
    ensures run(m, pos) == run(Awaiting(specs, m, FindAttr(specs, m.attr, 0)), pos + 1)
  {
    RunStep(specs, text, run, m, pos, Continue(Awaiting(specs, m, FindAttr(specs, m.attr, 0)), pos + 1));
  }

  lemma BeforeValue(specs: seq<Spec>, text: string, run: Runner, m: Machine, pos: nat)
    requires Executes(specs, text, run)
    requires m.st.AwaitValue? && m.cursor < |specs| && pos < |text| && text[pos] in {':', ' '}
    ensures run(m, pos) == run(m, pos + 1)
  {
    RunStep(specs, text, run, m, pos, Continue(m, pos + 1));
  }

  /** The end of a key: quote, colon, space. */
  lemma KeyEndRun(specs: seq<Spec>, text: string, run: Runner, m: Machine, pos: nat)
    requires Executes(specs, text, run)
    requires m.st.InAttr? && FindAttr(specs, m.attr, 0) < |specs|
    requires pos + 3 <= |text| && text[pos] == '"' && text[pos + 1] == ':' && text[pos + 2] == ' '
    ensures run(m, pos) == run(Awaiting(specs, m, FindAttr(specs, m.attr, 0)), pos + 3)
  {
    var a := Awaiting(specs, m, FindAttr(specs, m.attr, 0));
    KeyQuote(specs, text, run, m, pos);
    BeforeValue(specs, text, run, a, pos + 1);
    BeforeValue(specs, text, run, a, pos + 2);
  }

  lemma KeyTextAt(text: string, pos: nat, key: string) returns (q: nat)
    requires At(text, pos, KeyText(key))
    ensures q == pos + 1 + |key| && q + 3 <= |text| && At(text, pos + 1, key) && text[pos] == '"'
    ensures text[q] == '"' && text[q + 1] == ':' && text[q + 2] == ' '
  {
    var tail := ['"', ':', ' '];
    assert KeyText(key) == ['"'] + (key + tail);
    AtSplit(text, pos, ['"'], key + tail);
    AtChar(text, pos, ['"']);
    AtSplit(text, pos + 1, key, tail);
    q := pos + 1 + |key|;
    assert text[q + 0] == tail[0] && text[q + 1] == tail[1] && text[q + 2] == tail[2];
  }

  /** A key after its opening quote. */
  lemma KeyBodyRun(specs: seq<Spec>, text: string, run: Runner, m: Machine, pos: nat, key: string, q: nat)
    requires Executes(specs, text, run)
    requires m.st.InAttr? && m.attr == "" && PlainKey(key) && FindAttr(specs, key, 0) < |specs|
    requires At(text, pos, key) && q == pos + |key|
    requires q + 3 <= |text| && text[q] == '"' && text[q + 1] == ':' && text[q + 2] == ' '
    ensures run(m, pos) == run(Awaiting(specs, m, FindAttr(specs, key, 0)), q + 3)
  {
    KeyRun(specs, text, run, m, pos, key);
    assert m.attr + key == key;
    var n := m.(attr := key);
    KeyEndRun(specs, text, run, n, q);
    var k := FindAttr(specs, key, 0);
    assert Awaiting(specs, n, k) == Awaiting(specs, m, k);
  }

  lemma KeyTextRun(specs: seq<Spec>, text: string, run: Runner, m: Machine, pos: nat, key: string)
    requires Executes(specs, text, run)
    requires m.st.AwaitAttr? && PlainKey(key) && At(text, pos, KeyText(key)) && FindAttr(specs, key, 0) < |specs|
    ensures run(m, pos) == run(Awaiting(specs, m, FindAttr(specs, key, 0)), pos + |KeyText(key)|)
  {
    var q := KeyTextAt(text, pos, key);
    var m1 := m.(st := InAttr, attr := "");
    KeyBegin(specs, text, run, m, pos);
    KeyBodyRun(specs, text, run, m1, pos + 1, key, q);
    var k := FindAttr(specs, key, 0);
    assert Awaiting(specs, m1, k) == Awaiting(specs, m, k);
    assert q + 3 == pos + |KeyText(key)|;
  }

  function EntryPart(e: Entry): string { KeyText(e.key) + Print(e.value) }

  /** One entry and the character after it, at `end`. */
  lemma EntryRun(specs: seq<Spec>, text: string, run: Runner, m: Machine, pos: nat, e: Entry, end: nat)
    returns (n: Machine)
    requires Executes(specs, text, run)
    requires DistinctNames(specs) && m.st.AwaitAttr? && FitsTemplate(specs, e)
    requires At(text, pos, EntryPart(e)) && end == pos + |EntryPart(e)| && end < |text| && text[end] in {',', '}'}
    ensures n.store == m.store + [WriteOf(specs, e)] && n.st.AwaitAttr?
    ensures run(m, pos) == if text[end] == '}' then Final(OK, n.store) else run(n, end + 1)
  {
    var k := FindAttr(specs, e.key, 0);
    AtSplit(text, pos, KeyText(e.key), Print(e.value));
    KeyTextRun(specs, text, run, m, pos, e.key);
    var a := Awaiting(specs, m, k);
    ValueRun(specs, text, run, a, pos + |KeyText(e.key)|, e.value);
    n := EndRun(specs, text, run, a, end, e.value);
  }

  /** What follows the first entry. */
  lemma EntriesText(entries: seq<Entry>) returns (tail: string)
    requires entries != []
    ensures PrintEntries(entries) + ['}'] == EntryPart(entries[0]) + tail
    ensures |entries| == 1 ==> tail == ['}']
    ensures |entries| > 1 ==> tail != [] && tail[0] == ',' && tail[1..] == PrintEntries(entries[1..]) + ['}']
  {
    tail := CommaIf(|entries| > 1) + (PrintEntries(entries[1..]) + ['}']);
  }

  lemma WritesFirst(specs: seq<Spec>, entries: seq<Entry>, store: Store)
    requires entries != []
    ensures |entries| == 1 ==> store + Writes(specs, entries) == store + [WriteOf(specs, entries[0])]
    ensures store + Writes(specs, entries) == store + [WriteOf(specs, entries[0])] + Writes(specs, entries[1..])
  {}

  /** The first entry, from wherever it stands to the position after the character that follows it. */
  lemma FirstEntry(specs: seq<Spec>, text: string, run: Runner, m: Machine, pos: nat, entries: seq<Entry>)
    returns (n: Machine, next: nat)
    requires Executes(specs, text, run)
    requires DistinctNames(specs) && m.st.AwaitAttr? && entries != [] && FitsTemplate(specs, entries[0])
    requires At(text, pos, PrintEntries(entries) + ['}'])
    ensures n.store == m.store + [WriteOf(specs, entries[0])] && n.st.AwaitAttr?
    ensures |entries| == 1 ==> run(m, pos) == Final(OK, n.store)
    ensures |entries| > 1 ==> run(m, pos) == run(n, next) && At(text, next, PrintEntries(entries[1..]) + ['}'])
  {
    var tail := EntriesText(entries);
    var e := entries[0];
    var end := pos + |EntryPart(e)|;
    AtSplit(text, pos, EntryPart(e), tail);
    AtChar(text, end, tail);
    n := EntryRun(specs, text, run, m, pos, e, end);
    next := end + 1;
  }

  lemma {:induction false} EntriesRun(specs: seq<Spec>, text: string, run: Runner, m: Machine, pos: nat,
                                      entries: seq<Entry>)
    requires Executes(specs, text, run)
    requires DistinctNames(specs) && m.st.AwaitAttr? && entries != []
    requires forall i :: 0 <= i < |entries| ==> FitsTemplate(specs, entries[i])
    requires At(text, pos, PrintEntries(entries) + ['}'])
    ensures run(m, pos) == Final(OK, m.store + Writes(specs, entries))
    decreases |entries|
  {
    var n, next := FirstEntry(specs, text, run, m, pos, entries);
    WritesFirst(specs, entries, m.store);
    if |entries| <= 1 {
    } else {
      EntriesRun(specs, text, run, n, next, entries[1..]);
    }
  }

  // ----- The round trip -----

  lemma ReadPrinted(specs: seq<Spec>, entries: seq<Entry>)
    requires DistinctNames(specs) && forall i :: 0 <= i < |entries| ==> FitsTemplate(specs, entries[i])
    ensures ReadObject(specs, Print(Obj(entries))) == Final(OK, Defaults(specs, 0) + Writes(specs, entries))
  {
    var text := Print(Obj(entries));
    var tail := PrintEntries(entries) + ['}'];
    assert text == ['{'] + tail;
    var run := RunnerOf(specs, text);
    RunnerExecutes(specs, text);
    var m := Start(specs).(st := AwaitAttr);
    RunStep(specs, text, run, Start(specs), 0, Continue(m, 1));
    if entries == [] {
      assert text == "{}";
      RunStep(specs, text, run, m, 1, Continue(m, 2));
      assert m.store + Writes(specs, entries) == m.store;
    } else {
      EntriesRun(specs, text, run, m, 1, entries);
    }
  }

  lemma FlatIsClean(specs: seq<Spec>, entries: seq<Entry>)
    requires forall i :: 0 <= i < |entries| ==> FitsTemplate(specs, entries[i])
    ensures Clean(Obj(entries))
  {
    forall i | 0 <= i < |entries| ensures Clean(entries[i].value) {
      var e := entries[i];
      assert FitsTemplate(specs, e);
    }
  }

  /**
   Decoding the encoder's output with a template of distinct names succeeds, and after the
   template's defaults it writes exactly the entries' values, each to its attribute, in order.
   */
  lemma RoundTrip(specs: seq<Spec>, entries: seq<Entry>)
    requires DistinctNames(specs)
    requires forall i :: 0 <= i < |entries| ==> FitsTemplate(specs, entries[i])
    ensures ReadObject(specs, Encode(Obj(entries), false).0) == Final(OK, Defaults(specs, 0) + Writes(specs, entries))
  {
    FlatIsClean(specs, entries);
    CommasIff(Obj(entries));
    ReadPrinted(specs, entries);
  }

  // ----- What the attributes hold afterwards -----

  lemma {:induction false} LatestAppend(a: Store, b: Store, k: nat, old_: Stored)
    ensures Latest(a + b, k, old_) == Latest(b, k, Latest(a, k, old_))
    decreases |b|
  {
    if b == [] {
      assert a + b == a;
    } else {
      assert (a + b)[..|a + b| - 1] == a + b[..|b| - 1];
      LatestAppend(a, b[..|b| - 1], k, old_);
    }
  }

  /** Entries with different keys do not disturb each other. */
  lemma {:induction false} LatestWrites(specs: seq<Spec>, entries: seq<Entry>, k: nat, old_: Stored)
    requires forall i :: 0 <= i < |entries| ==> FitsTemplate(specs, entries[i])
    requires forall i, j :: 0 <= i < j < |entries| ==> entries[i].key != entries[j].key
    ensures forall i :: 0 <= i < |entries| && FindAttr(specs, entries[i].key, 0) == k ==>
              Latest(Writes(specs, entries), k, old_) == Meaning(entries[i].value)
    ensures (forall i :: 0 <= i < |entries| ==> FindAttr(specs, entries[i].key, 0) != k) ==>
              Latest(Writes(specs, entries), k, old_) == old_
    decreases |entries|
  {
    if entries != [] {
      var (e, rest) := (entries[0], entries[1..]);
      var w := [WriteOf(specs, e)];
      assert Writes(specs, entries) == w + Writes(specs, rest);
      LatestAppend(w, Writes(specs, rest), k, old_);
      assert Latest(w, k, old_) == if w[0].attr == k then w[0].value else Latest([], k, old_) by {
        assert w[..|w| - 1] == [];
      }
      LatestWrites(specs, rest, k, Latest(w, k, old_));
      assert forall i :: 0 <= i < |rest| ==> rest[i] == entries[i + 1];
      assert forall i :: 1 <= i < |entries| ==> entries[i] == rest[i - 1];
    }
  }

  /** With distinct keys, in any order: every entry's attribute holds its value, the others their default. */
  lemma ValuesComeBack(specs: seq<Spec>, entries: seq<Entry>, k: nat, old_: Stored)
    requires DistinctNames(specs)
    requires forall i :: 0 <= i < |entries| ==> FitsTemplate(specs, entries[i])
    requires forall i, j :: 0 <= i < j < |entries| ==> entries[i].key != entries[j].key
    ensures
      var held := Latest(ReadObject(specs, Encode(Obj(entries), false).0).store, k, old_);
      && (forall i :: 0 <= i < |entries| && FindAttr(specs, entries[i].key, 0) == k ==>
            held == Meaning(entries[i].value))
      && ((forall i :: 0 <= i < |entries| ==> FindAttr(specs, entries[i].key, 0) != k) ==>
            held == Latest(Defaults(specs, 0), k, old_))
  {
    RoundTrip(specs, entries);
    LatestAppend(Defaults(specs, 0), Writes(specs, entries), k, old_);
    LatestWrites(specs, entries, k, Latest(Defaults(specs, 0), k, old_));
  }
}
