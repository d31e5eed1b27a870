/**
 What the object reader refuses, and with which code: every return of `json_internal_read_object` and
 `json_read_array`, after any number of good entries.  What was stored before stays stored.
 */
module JsonFaults {
  import opened CText
  import opened Common
  import opened JsonEncode
  import opened JsonDecode
  import opened JsonRoundTrip
  import opened JsonLoose

  /** What is wrong at a place where a key may stand. */
  datatype Fault =
    | NoKey(c: char)
    | UnknownKey(key: string)
    | LongKey(key: string)
    | NotAnArray(key: string, gap: string)
    | NoBracket(key: string, gap: string, c: char)
    | LongString(key: string, gap: string, s: string)
    | LongToken(key: string, gap: string, tok: string)
    | QuotedNumber(key: string, gap: string, c: char)
    | BareString(key: string, gap: string, tok: string, c: char)
    | LongArray(key: string, gap: string, elems: seq<Value>, pads: seq<Pad>)
    | BadElement(key: string, gap: string, elems: seq<Value>, pads: seq<Pad>, before: string, c: char)
    | BadSeparator(key: string, gap: string, elems: seq<Value>, pads: seq<Pad>, last: Value, pad: Pad, c: char)

  /** Characters that a quoted value takes as they are. */
  predicate Literal(s: string) { forall i :: 0 <= i < |s| ==> s[i] != '"' && s[i] != '\\' && s[i] != NUL }

  predicate Token(s: string) { s != "" && (forall i :: 0 <= i < |s| ==> TokenChar(s[i])) && s[0] !in {'"', '[', ':'} }

  /** The key is of an attribute, and the gap behind it is one. */
  predicate Named(specs: seq<Spec>, key: string, gap: string) {
    PlainKey(key) && FindAttr(specs, key, 0) < |specs| && Gap(gap)
  }

  function KindOf(specs: seq<Spec>, key: string): FieldType
    requires FindAttr(specs, key, 0) < |specs|
  {
    specs[FindAttr(specs, key, 0)].kind
  }

  /** How many characters of a quoted value are taken: as the buffer has room for, or one more than "false" has. */
  function Room(kind: FieldType): nat
    requires kind.TStr? || kind.TBool?
  {
    if kind.TBool? then 6 else if kind.len < VAL_MAX then kind.len else VAL_MAX
  }

  ghost predicate Occurs(specs: seq<Spec>, f: Fault) {
    match f
    case NoKey(c) => !IsSpace(c) && c !in {'"', '}', NUL}
    case UnknownKey(key) => PlainKey(key) && FindAttr(specs, key, 0) == |specs|
    case LongKey(key) => |key| == ATTR_MAX && forall i :: 0 <= i < |key| ==> key[i] != '"' && key[i] != NUL
    case NotAnArray(key, gap) => Named(specs, key, gap) && !KindOf(specs, key).TArr?
    case NoBracket(key, gap, c) =>
      Named(specs, key, gap) && KindOf(specs, key).TArr? && !IsSpace(c) && c !in {':', '[', NUL}
    case LongString(key, gap, s) =>
      && Named(specs, key, gap) && (KindOf(specs, key).TStr? || KindOf(specs, key).TBool?) && Literal(s)
      && |s| == Room(KindOf(specs, key)) + 1
    case LongToken(key, gap, tok) =>
      Named(specs, key, gap) && !KindOf(specs, key).TArr? && Token(tok) && |tok| == VAL_MAX + 1
    case QuotedNumber(key, gap, c) =>
      Named(specs, key, gap) && !KindOf(specs, key).TArr? && !KindOf(specs, key).TStr? && c != NUL
    case BareString(key, gap, tok, c) =>
      Named(specs, key, gap) && KindOf(specs, key).TStr? && Token(tok) && |tok| <= VAL_MAX && c in {',', '}'}
    case LongArray(key, gap, elems, pads) =>
      && Named(specs, key, gap) && KindOf(specs, key).TArr? && elems != []
      && ElemsFit(KindOf(specs, key).elem, elems, pads) && |elems| == KindOf(specs, key).maxlen
    case BadElement(key, gap, elems, pads, before, c) =>
      && Named(specs, key, gap) && KindOf(specs, key).TArr? && White(before)
      && ElemsFit(KindOf(specs, key).elem, elems, pads) && |elems| < KindOf(specs, key).maxlen
      && !IsSpace(c) && c != NUL && !Begins(KindOf(specs, key).elem, c) && (elems == [] ==> c != ']')
    case BadSeparator(key, gap, elems, pads, last, pad, c) =>
      && Named(specs, key, gap) && KindOf(specs, key).TArr? && White(pad.before) && White(pad.after)
      && ElemsFit(KindOf(specs, key).elem, elems, pads) && FitsElem(KindOf(specs, key).elem, last)
      && |elems| < KindOf(specs, key).maxlen && !IsSpace(c) && c !in {',', ']', NUL} && DigitValue(c) == 99
  }

  /** An element may begin with this character. */
  predicate Begins(t: ElemType, c: char) {
    match t
    case EBool => c == 't' || c == 'f'
    case _ => IsDigit(c) || c == '-' || c == '+'
  }

  /** The code for something that is not an element. */
  function NotElement(t: ElemType): nat { if t.EBool? then ERR_MISC else ERR_BADNUM }

  /** Elements, each with a comma behind it. */
  ghost function CommaElems(elems: seq<Value>, pads: seq<Pad>): string
    requires |elems| == |pads|
  {
    if elems == [] then ""
    else pads[0].before + Print(elems[0]) + pads[0].after + [','] + CommaElems(elems[1..], pads[1..])
  }

  ghost function FaultText(f: Fault): string
    requires (f.LongArray? || f.BadElement? || f.BadSeparator?) ==> |f.pads| == |f.elems|
  {
    match f
    case NoKey(c) => [c]
    case UnknownKey(key) => KeyPart(key)
    case LongKey(key) => ['"'] + key
    case NotAnArray(key, gap) => KeyPart(key) + gap + ['[']
    case NoBracket(key, gap, c) => KeyPart(key) + gap + [c]
    case LongString(key, gap, s) => KeyPart(key) + gap + (['"'] + s)
    case LongToken(key, gap, tok) => KeyPart(key) + gap + tok
    case QuotedNumber(key, gap, c) => KeyPart(key) + gap + ['"', '"', c]
    case BareString(key, gap, tok, c) => KeyPart(key) + gap + (tok + [c])
    case LongArray(key, gap, elems, pads) => KeyPart(key) + gap + (['['] + (CommaElems(elems, pads) + []))
    case BadElement(key, gap, elems, pads, before, c) =>
      KeyPart(key) + gap + (['['] + (CommaElems(elems, pads) + (before + [c])))
    case BadSeparator(key, gap, elems, pads, last, pad, c) =>
      KeyPart(key) + gap + (['['] + (CommaElems(elems, pads) + (pad.before + Print(last) + pad.after + [c])))
  }

  ghost function Code(specs: seq<Spec>, f: Fault): nat
    requires Occurs(specs, f)
  {
    match f
    case NoKey(_) => ERR_ATTRSTART
    case UnknownKey(_) => ERR_BADATTR
    case LongKey(_) => ERR_ATTRLEN
    case NotAnArray(_, _) => ERR_NOARRAY
    case NoBracket(_, _, _) => ERR_NOBRAK
    case LongString(_, _, _) => ERR_STRLONG
    case LongToken(_, _, _) => ERR_TOKLONG
    case QuotedNumber(_, _, _) => ERR_QNONSTRING
    case BareString(_, _, _, _) => ERR_NONQSTRING
    case LongArray(_, _, _, _) => ERR_SUBTOOLONG
    case BadElement(key, _, _, _, _, _) => NotElement(KindOf(specs, key).elem)
    case BadSeparator(_, _, _, _, _, _, _) => ERR_BADSUBTRAIL
  }

  // ----- Steps that return -----

  /** The reader is at `pos` before a key, and returns `rc` with nothing more stored. */
  ghost predicate Refuses(run: Runner, m: Machine, pos: nat, rc: nat) { run(m, pos) == Final(rc, m.store) }

  lemma StepRefuses(specs: seq<Spec>, text: string, run: Runner, m: Machine, pos: nat, rc: nat)
    requires Executes(specs, text, run) && Ready(specs, m) && pos < |text| && text[pos] != NUL
    requires Step(specs, m, text[pos], text, pos + 1) == Return(rc, m.store)
    ensures Refuses(run, m, pos, rc)
  {
    RunStep(specs, text, run, m, pos, Return(rc, m.store));
  }

  lemma NoKeyRun(specs: seq<Spec>, text: string, run: Runner, m: Machine, pos: nat, c: char)
    requires Executes(specs, text, run) && m.st.AwaitAttr? && pos < |text| && text[pos] == c
    requires !IsSpace(c) && c !in {'"', '}', NUL}
    ensures Refuses(run, m, pos, ERR_ATTRSTART)
  {
    StepRefuses(specs, text, run, m, pos, ERR_ATTRSTART);
  }

  lemma UnknownKeyRun(specs: seq<Spec>, text: string, run: Runner, m: Machine, pos: nat, key: string)
    requires Executes(specs, text, run) && m.st.AwaitAttr? && PlainKey(key) && FindAttr(specs, key, 0) == |specs|
    requires At(text, pos, KeyPart(key))
    ensures Refuses(run, m, pos, ERR_BADATTR)
  {
    KeyRead(specs, text, run, m, pos, key);
    var n := m.(st := InAttr, attr := key);
    StepRefuses(specs, text, run, n, pos + 1 + |key|, ERR_BADATTR);
  }

  lemma LongKeyRun(specs: seq<Spec>, text: string, run: Runner, m: Machine, pos: nat, key: string)
    requires Executes(specs, text, run) && m.st.AwaitAttr? && |key| == ATTR_MAX && At(text, pos, ['"'] + key)
    requires forall i :: 0 <= i < |key| ==> key[i] != '"' && key[i] != NUL
    ensures Refuses(run, m, pos, ERR_ATTRLEN)
  {
    var (front, last) := (key[..ATTR_MAX - 1], key[ATTR_MAX - 1]);
    assert ['"'] + key == ['"'] + front + [last] + [];
    PieceThen(text, pos, ['"'] + front, last, []);
    AtSplit(text, pos, ['"'], front);
    AtChar(text, pos, ['"']);
    KeyBegin(specs, text, run, m, pos);
    var m1 := m.(st := InAttr, attr := "");
    KeyRun(specs, text, run, m1, pos + 1, front);
    assert m1.attr + front == front;
    StepRefuses(specs, text, run, m1.(attr := front), pos + 1 + |front|, ERR_ATTRLEN);
  }

  /** A key and its gap, up to the value at `q`. */
  lemma NamedRun(specs: seq<Spec>, text: string, run: Runner, m: Machine, pos: nat, key: string, gap: string,
                 rest: string)
    returns (a: Machine, q: nat)
    requires Executes(specs, text, run) && m.st.AwaitAttr? && Named(specs, key, gap)
    requires At(text, pos, KeyPart(key) + gap + rest)
    ensures a == Awaiting(specs, m, FindAttr(specs, key, 0)) && run(m, pos) == run(a, q) && At(text, q, rest)
    ensures a.store == m.store && a.st.AwaitValue? && a.cursor < |specs| && specs[a.cursor].kind == KindOf(specs, key)
    ensures specs[a.cursor].name == a.attr
  {
    q := NamedPieces(text, pos, KeyPart(key), gap, rest);
    a := Awaiting(specs, m, FindAttr(specs, key, 0));
    KeyQuoted(specs, text, run, m, pos, key);
    GapRun(specs, text, run, a, pos + |KeyPart(key)|, gap);
  }

  lemma NamedPieces(text: string, pos: nat, key: string, gap: string, rest: string) returns (q: nat)
    requires At(text, pos, key + gap + rest)
    ensures At(text, pos, key) && At(text, pos + |key|, gap) && q == pos + |key| + |gap| && At(text, q, rest)
  {
    AtSplit(text, pos, key + gap, rest);
    AtSplit(text, pos, key, gap);
    q := pos + |key| + |gap|;
  }

  /** Good entries, a key and its gap, and then the value `rest` at `q`. */
  lemma NamedOpen(specs: seq<Spec>, lead: string, items: seq<Item>, n: nat, key: string, gap: string, rest: string,
                  text: string, run: Runner) returns (a: Machine, q: nat)
    requires DistinctNames(specs) && White(lead) && ItemsOk(specs, items) && n == |items| && Named(specs, key, gap)
    requires run == RunnerOf(specs, text) && text == Opening(specs, lead, items, n) + (KeyPart(key) + gap + rest)
    ensures Executes(specs, text, run) && ReadObject(specs, text) == run(a, q) && At(text, q, rest)
    ensures a.store == Defaults(specs, 0) + LooseWrites(specs, items, n) && a.st.AwaitValue?
    ensures a.cursor == FindAttr(specs, key, 0) && specs[a.cursor].kind == KindOf(specs, key)
    ensures specs[a.cursor].name == a.attr && a.maxlen == MaxLen(specs[a.cursor].kind, a.maxlen)
  {
    var m, pos := Open(specs, lead, items, n, KeyPart(key) + gap + rest, text, run);
    a, q := NamedRun(specs, text, run, m, pos, key, gap, rest);
  }

  // ----- Values -----

  lemma BracketRun(specs: seq<Spec>, text: string, run: Runner, a: Machine, q: nat)
    requires Executes(specs, text, run) && a.st.AwaitValue? && a.cursor < |specs| && !specs[a.cursor].kind.TArr?
    requires q < |text| && text[q] == '['
    ensures Refuses(run, a, q, ERR_NOARRAY)
  {
    StepRefuses(specs, text, run, a, q, ERR_NOARRAY);
  }

  lemma NoBracketRun(specs: seq<Spec>, text: string, run: Runner, a: Machine, q: nat)
    requires Executes(specs, text, run) && a.st.AwaitValue? && a.cursor < |specs| && specs[a.cursor].kind.TArr?
    requires q < |text| && !IsSpace(text[q]) && text[q] !in {':', '[', NUL}
    ensures Refuses(run, a, q, ERR_NOBRAK)
  {
    StepRefuses(specs, text, run, a, q, ERR_NOBRAK);
  }

  /** A quoted value of characters that need no escape, within the bound. */
  lemma {:induction false} LiteralRuns(specs: seq<Spec>, text: string, run: Runner, m: Machine, pos: nat, s: string)
    requires Executes(specs, text, run) && m.st.InValString? && m.cursor < |specs| && Literal(s) && At(text, pos, s)
    requires |m.val| + |s| <= VAL_MAX && |m.val| + |s| <= m.maxlen + 1
    ensures run(m, pos) == run(m.(val := m.val + s), pos + |s|)
    decreases |s|
  {
    if s == [] {
      assert m.val + s == m.val;
    } else {
      AtChar(text, pos, s);
      assert At(text, pos, [s[0]]);
      LiteralRun(specs, text, run, m, pos, s[0]);
      var n := m.(val := m.val + [s[0]]);
      LiteralRuns(specs, text, run, n, pos + 1, s[1..]);
      assert n.val + s[1..] == m.val + s;
    }
  }

  /** One character more than the buffer takes. */
  lemma LongStringRun(specs: seq<Spec>, text: string, run: Runner, a: Machine, q: nat, s: string, room: nat)
    requires Executes(specs, text, run) && a.st.AwaitValue? && a.cursor < |specs| && !specs[a.cursor].kind.TArr?
    requires room <= VAL_MAX && room <= a.maxlen + 1 && (room == VAL_MAX || room == a.maxlen + 1)
    requires Literal(s) && |s| == room + 1 && At(text, q, ['"'] + s)
    ensures Refuses(run, a, q, ERR_STRLONG)
  {
    var (front, last) := (s[..room], s[room]);
    assert ['"'] + s == ['"'] + front + [last] + [];
    PieceThen(text, q, ['"'] + front, last, []);
    AtSplit(text, q, ['"'], front);
    AtChar(text, q, ['"']);
    StringBegin(specs, text, run, a, q);
    var m1 := a.(st := InValString, quoted := true, val := "");
    LiteralRuns(specs, text, run, m1, q + 1, front);
    assert m1.val + front == front;
    StepRefuses(specs, text, run, m1.(val := front), q + 1 + |front|, ERR_STRLONG);
  }

  lemma LongTokenRun(specs: seq<Spec>, text: string, run: Runner, a: Machine, q: nat, tok: string)
    requires Executes(specs, text, run) && a.st.AwaitValue? && a.cursor < |specs| && !specs[a.cursor].kind.TArr?
    requires Token(tok) && |tok| == VAL_MAX + 1 && At(text, q, tok)
    ensures Refuses(run, a, q, ERR_TOKLONG)
  {
    var (front, last) := (tok[..VAL_MAX], tok[VAL_MAX]);
    assert tok == front + [last] + [];
    PieceThen(text, q, front, last, []);
    TokenPart(specs, text, run, a, q, front);
    StepRefuses(specs, text, run, a.(st := InValToken, quoted := false, val := front), q + |front|, ERR_TOKLONG);
  }

  /** A token as far as it goes. */
  lemma TokenPart(specs: seq<Spec>, text: string, run: Runner, a: Machine, q: nat, tok: string)
    requires Executes(specs, text, run) && a.st.AwaitValue? && a.cursor < |specs| && !specs[a.cursor].kind.TArr?
    requires Token(tok) && |tok| <= VAL_MAX && At(text, q, tok)
    ensures run(a, q) == run(a.(st := InValToken, quoted := false, val := tok), q + |tok|)
  {
    AtChar(text, q, tok);
    TokenBegin(specs, text, run, a, q);
    var m1 := a.(st := InValToken, quoted := false, val := [tok[0]]);
    TokenRun(specs, text, run, m1, q + 1, tok[1..]);
    assert m1.val + tok[1..] == tok;
  }

  lemma QuotedNumberRun(specs: seq<Spec>, text: string, run: Runner, a: Machine, q: nat, c: char)
    requires Executes(specs, text, run) && DistinctNames(specs) && a.st.AwaitValue? && a.cursor < |specs|
    requires specs[a.cursor].name == a.attr && !specs[a.cursor].kind.TArr? && !specs[a.cursor].kind.TStr?
    requires q + 2 < |text| && text[q] == '"' && text[q + 1] == '"' && text[q + 2] == c != NUL
    ensures Refuses(run, a, q, ERR_QNONSTRING)
  {
    StringBegin(specs, text, run, a, q);
    var m1 := a.(st := InValString, quoted := true, val := "");
    StringEnd(specs, text, run, m1, q + 1);
    var m2 := m1.(st := PostVal);
    SeekStays(specs, m2, "", true);
    StepRefuses(specs, text, run, m2, q + 2, ERR_QNONSTRING);
  }

  lemma BareStringRun(specs: seq<Spec>, text: string, run: Runner, a: Machine, q: nat, tok: string)
    requires Executes(specs, text, run) && DistinctNames(specs) && a.st.AwaitValue? && a.cursor < |specs|
    requires specs[a.cursor].name == a.attr && specs[a.cursor].kind.TStr?
    requires Token(tok) && |tok| <= VAL_MAX && At(text, q, tok)
    requires q + |tok| < |text| && text[q + |tok|] in {',', '}'}
    ensures Refuses(run, a, q, ERR_NONQSTRING)
  {
    TokenPart(specs, text, run, a, q, tok);
    var m1 := a.(st := InValToken, quoted := false, val := tok);
    TokenEnd(specs, text, run, m1, q + |tok|);
    var m2 := m1.(st := PostVal);
    SeekStays(specs, m2, CString(tok), false);
    StepRefuses(specs, text, run, m2, q + |tok|, ERR_NONQSTRING);
  }

  // ----- Arrays -----

  lemma CommaElemsSplit(elems: seq<Value>, pads: seq<Pad>, rest: string) returns (tail: string)
    requires elems != [] && |elems| == |pads|
    ensures tail == CommaElems(elems[1..], pads[1..]) + rest
    ensures CommaElems(elems, pads) + rest == pads[0].before + Print(elems[0]) + pads[0].after + [','] + tail
  {
    tail := CommaElems(elems[1..], pads[1..]) + rest;
    Reassociate(pads[0].before + Print(elems[0]) + pads[0].after + [','], CommaElems(elems[1..], pads[1..]), rest);
  }

  lemma Reassociate(a: string, b: string, c: string)
    ensures a + b + c == a + (b + c)
  {}

  /** The element loop goes from `pos` over one element and its comma to `next`. */
  ghost predicate Hops(text: string, read: ElemReader, pos: nat, next: nat) {
    var r := read(SkipWs(text, pos));
    r.ElemOk? && var e := SkipWs(text, r.pos); e < |text| && text[e] == ',' && next == e + 1
  }

  /** At `pos` there are elements with commas, and then `rest`, at `q`. */
  ghost predicate CommaElemsAt(text: string, pos: nat, elems: seq<Value>, pads: seq<Pad>, rest: string, q: nat)
    requires |elems| == |pads|
  {
    At(text, pos, CommaElems(elems, pads) + rest) && q == pos + |CommaElems(elems, pads)|
  }

  lemma ElemHops(text: string, pos: nat, t: ElemType, read: ElemReader, elems: seq<Value>, pads: seq<Pad>, rest: string,
                 q: nat) returns (next: nat)
    requires ReadsBack(text, t, read) && ElemsFit(t, elems, pads) && elems != []
    requires CommaElemsAt(text, pos, elems, pads, rest, q)
    ensures Hops(text, read, pos, next) && ElemsFit(t, elems[1..], pads[1..])
    ensures CommaElemsAt(text, next, elems[1..], pads[1..], rest, q)
  {
    var tail := CommaElemsSplit(elems, pads, rest);
    var p, r, e := PaddedElem(text, pos, t, read, elems[0], pads[0], ',', tail);
    CommaLength(elems, pads);
    next := e + 1;
  }

  lemma NothingBefore(text: string, pos: nat, pads: seq<Pad>, rest: string, q: nat)
    requires pads == [] && CommaElemsAt(text, pos, [], pads, rest, q)
    ensures pos == q
  {}

  lemma HopRefuses(text: string, pos: nat, read: ElemReader, room: nat, next: nat, rc: nat)
    requires Advances(text, read) && room > 0 && Hops(text, read, pos, next)
    requires ReadElems(text, next, read, room - 1) == ArrayErr(rc)
    ensures ReadElems(text, pos, read, room) == ArrayErr(rc)
  {}

  /** Good elements with commas, and then something at `q` that the element loop refuses. */
  lemma {:induction false} CommaElemsRun(text: string, pos: nat, t: ElemType, read: ElemReader, elems: seq<Value>,
                                         pads: seq<Pad>, rest: string, room: nat, q: nat, rc: nat)
    requires Advances(text, read) && ReadsBack(text, t, read) && ElemsFit(t, elems, pads) && |elems| <= room
    requires CommaElemsAt(text, pos, elems, pads, rest, q)
    requires ReadElems(text, q, read, room - |elems|) == ArrayErr(rc)
    ensures ReadElems(text, pos, read, room) == ArrayErr(rc)
    decreases |elems|
  {
    if elems == [] {
      NothingBefore(text, pos, pads, rest, q);
    } else {
      var next := ElemHops(text, pos, t, read, elems, pads, rest, q);
      CommaElemsRun(text, next, t, read, elems[1..], pads[1..], rest, room - 1, q, rc);
      HopRefuses(text, pos, read, room, next, rc);
    }
  }

  lemma CommaLength(elems: seq<Value>, pads: seq<Pad>)
    requires elems != [] && |elems| == |pads|
    ensures |CommaElems(elems, pads)|
         == |pads[0].before| + |Print(elems[0])| + |pads[0].after| + 1 + |CommaElems(elems[1..], pads[1..])|
  {}

  /** The array at `pos` is one that the array reader refuses. */
  ghost predicate ArrayFails(text: string, pos: nat, read: ElemReader, maxlen: nat, rc: nat)
    requires Advances(text, read)
  {
    && pos < |text| && text[pos] == '['
    && LoopFails(text, SkipWs(text, pos + 1), read, maxlen, true, rc)
  }

  /** The element loop refuses what it finds at `q`, where the array does not end if nothing has been read. */
  ghost predicate LoopFails(text: string, q: nat, read: ElemReader, room: nat, first: bool, rc: nat)
    requires Advances(text, read)
  {
    && q <= |text| && ReadElems(text, q, read, room) == ArrayErr(rc)
    && (first ==> CharAt(text, SkipWs(text, q)) != ']')
  }

  lemma ArrayRefuses(specs: seq<Spec>, text: string, run: Runner, a: Machine, pos: nat, read: ElemReader, rc: nat)
    requires Executes(specs, text, run) && a.st.AwaitValue? && a.cursor < |specs| && specs[a.cursor].kind.TArr?
    requires Advances(text, read) && read == ReaderOf(text, specs[a.cursor].kind.elem)
    requires ArrayFails(text, pos, read, specs[a.cursor].kind.maxlen, rc)
    ensures Refuses(run, a, pos, rc)
  {
    var kind := specs[a.cursor].kind;
    ArrayRefused(text, pos, read, kind.maxlen, rc);
    NoSpace(text, pos);
    StepRefuses(specs, text, run, a, pos, rc);
  }

  lemma ArrayRefused(text: string, pos: nat, read: ElemReader, maxlen: nat, rc: nat)
    requires Advances(text, read) && ArrayFails(text, pos, read, maxlen, rc)
    ensures ReadArray(text, pos, read, maxlen) == ArrayErr(rc)
  {
    NoSpace(text, pos);
    SkipTwice(text, pos + 1);
  }

  /** White space before the first element changes nothing for the loop. */
  lemma {:induction false} SkipTwice(text: string, pos: nat)
    requires pos <= |text|
    ensures SkipWs(text, SkipWs(text, pos)) == SkipWs(text, pos)
    decreases |text| - pos
  {
    if pos < |text| && IsSpace(text[pos]) { SkipTwice(text, pos + 1); }
  }

  lemma ElemsFromSkipped(text: string, pos: nat, read: ElemReader, room: nat)
    requires Advances(text, read) && pos <= |text|
    ensures ReadElems(text, SkipWs(text, pos), read, room) == ReadElems(text, pos, read, room)
  {
    SkipTwice(text, pos);
  }

  /** With an element first, the loop is entered. */
  lemma FirstElem(text: string, pos: nat, t: ElemType, read: ElemReader, elems: seq<Value>, pads: seq<Pad>,
                  rest: string)
    requires ReadsBack(text, t, read) && ElemsFit(t, elems, pads) && elems != []
    requires At(text, pos, CommaElems(elems, pads) + rest)
    ensures CharAt(text, SkipWs(text, pos)) != ']'
  {
    var tail := CommaElemsSplit(elems, pads, rest);
    var p, q, e := PaddedElem(text, pos, t, read, elems[0], pads[0], ',', tail);
  }

  /** At `pos` an array begins with good elements, and goes on at `q` with `rest`. */
  ghost predicate ArrayAt(text: string, pos: nat, q: nat, good: string, rest: string) {
    && pos < |text| && text[pos] == '[' && At(text, pos + 1, good + rest)
    && q == pos + 1 + |good| && At(text, q, rest)
  }

  lemma ArrayPieces(text: string, pos: nat, good: string, rest: string) returns (q: nat)
    requires At(text, pos, ['['] + (good + rest))
    ensures ArrayAt(text, pos, q, good, rest)
  {
    AtSplit(text, pos, ['['], good + rest);
    AtChar(text, pos, ['[']);
    AtSplit(text, pos + 1, good, rest);
    q := pos + 1 + |good|;
  }

  /** Good elements with commas in an array, and then something at `q` that the loop refuses. */
  lemma ElemsFail(text: string, pos: nat, t: ElemType, read: ElemReader, maxlen: nat, elems: seq<Value>,
                  pads: seq<Pad>, rest: string, q: nat, rc: nat)
    requires Advances(text, read) && ReadsBack(text, t, read) && ElemsFit(t, elems, pads) && |elems| <= maxlen
    requires ArrayAt(text, pos, q, CommaElems(elems, pads), rest)
    requires LoopFails(text, q, read, maxlen - |elems|, elems == [], rc)
    ensures ArrayFails(text, pos, read, maxlen, rc)
  {
    if elems != [] { FirstElem(text, pos + 1, t, read, elems, pads, rest); }
    CommaElemsRun(text, pos + 1, t, read, elems, pads, rest, maxlen, q, rc);
    ElemsFromSkipped(text, pos + 1, read, maxlen);
    SkipTwice(text, pos + 1);
  }

  /** What can begin no element is none. */
  ghost predicate Rejects(text: string, t: ElemType, read: ElemReader) {
    forall p: nat :: p < |text| && !IsSpace(text[p]) && !Begins(t, text[p]) ==> read(p) == ElemErr(NotElement(t))
  }

  lemma ReaderRejects(text: string, t: ElemType)
    ensures Rejects(text, t, ReaderOf(text, t))
  {
    forall p: nat | p < |text| && !IsSpace(text[p]) && !Begins(t, text[p])
      ensures ReadElem(text, p, t) == ElemErr(NotElement(t))
    {
      var s := Chunk(text, p, if t.EBool? then 5 else 63);
      assert s[0] == text[p];
      assert StartsWith(s, "true") ==> s[0] == "true"[0];
      assert StartsWith(s, "false") ==> s[0] == "false"[0];
    }
  }

  lemma BadElementLoop(text: string, q: nat, t: ElemType, read: ElemReader, room: nat, before: string, c: char,
                       first: bool)
    requires Advances(text, read) && Rejects(text, t, read) && room > 0
    requires White(before) && At(text, q, before + [c]) && !IsSpace(c) && !Begins(t, c) && (first ==> c != ']')
    ensures LoopFails(text, q, read, room, first, NotElement(t))
  {
    assert before + [c] + [] == before + [c];
    PieceThen(text, q, before, c, []);
    SkipWsRun(text, q, before);
  }

  lemma BadSeparatorLoop(text: string, q: nat, t: ElemType, read: ElemReader, room: nat, v: Value, pad: Pad, c: char,
                         s: string, first: bool)
    requires Advances(text, read) && ReadsBack(text, t, read) && room > 0
    requires FitsElem(t, v) && White(pad.before) && White(pad.after)
    requires At(text, q, s) && s == pad.before + Print(v) + pad.after + [c]
    requires !IsSpace(c) && c !in {',', ']'} && DigitValue(c) == 99
    ensures LoopFails(text, q, read, room, first, ERR_BADSUBTRAIL)
  {
    assert s + [] == s;
    var p, r, e := PaddedElem(text, q, t, read, v, pad, c, []);
  }

  /** What stands behind the good elements. */
  ghost function Wrong(f: Fault): string
    requires f.LongArray? || f.BadElement? || f.BadSeparator?
  {
    match f
    case LongArray(_, _, _, _) => []
    case BadElement(_, _, _, _, before, c) => before + [c]
    case BadSeparator(_, _, _, _, last, pad, c) => pad.before + Print(last) + pad.after + [c]
  }

  // ----- Every fault -----

  /** What follows the key and the gap. */
  ghost function ValueText(f: Fault): string
    requires !f.NoKey? && !f.UnknownKey? && !f.LongKey?
    requires (f.LongArray? || f.BadElement? || f.BadSeparator?) ==> |f.pads| == |f.elems|
  {
    match f
    case NotAnArray(_, _) => ['[']
    case NoBracket(_, _, c) => [c]
    case LongString(_, _, s) => ['"'] + s
    case LongToken(_, _, tok) => tok
    case QuotedNumber(_, _, c) => ['"', '"', c]
    case BareString(_, _, tok, c) => tok + [c]
    case LongArray(_, _, elems, pads) => ['['] + (CommaElems(elems, pads) + Wrong(f))
    case BadElement(_, _, elems, pads, _, _) => ['['] + (CommaElems(elems, pads) + Wrong(f))
    case BadSeparator(_, _, elems, pads, _, _, _) => ['['] + (CommaElems(elems, pads) + Wrong(f))
  }

  lemma ValueFault(specs: seq<Spec>, text: string, run: Runner, a: Machine, q: nat, f: Fault)
    requires Executes(specs, text, run) && DistinctNames(specs) && Occurs(specs, f)
    requires !f.NoKey? && !f.UnknownKey? && !f.LongKey? && At(text, q, ValueText(f))
    requires a.st.AwaitValue? && a.cursor < |specs| && specs[a.cursor].name == a.attr
    requires specs[a.cursor].kind == KindOf(specs, f.key) && a.maxlen == MaxLen(specs[a.cursor].kind, a.maxlen)
    ensures Refuses(run, a, q, Code(specs, f))
  {
    if !f.LongArray? && !f.BadElement? && !f.BadSeparator? { AtChar(text, q, ValueText(f)); }
    match f
    case NotAnArray(_, _) => BracketRun(specs, text, run, a, q);
    case NoBracket(_, _, c) => NoBracketRun(specs, text, run, a, q);
    case LongString(_, _, s) => LongStringRun(specs, text, run, a, q, s, Room(specs[a.cursor].kind));
    case LongToken(_, _, tok) => LongTokenRun(specs, text, run, a, q, tok);
    case QuotedNumber(_, _, c) =>
      AtChar(text, q + 1, ['"', c]);
      AtChar(text, q + 2, [c]);
      QuotedNumberRun(specs, text, run, a, q, c);
    case BareString(_, _, tok, c) =>
      AtSplit(text, q, tok, [c]);
      AtChar(text, q + |tok|, [c]);
      BareStringRun(specs, text, run, a, q, tok);
    case LongArray(_, _, _, _) => ArrayFaultRun(specs, text, run, a, q, f);
    case BadElement(_, _, _, _, _, _) => ArrayFaultRun(specs, text, run, a, q, f);
    case BadSeparator(_, _, _, _, _, _, _) => ArrayFaultRun(specs, text, run, a, q, f);
  }

  lemma ArrayFaultRun(specs: seq<Spec>, text: string, run: Runner, a: Machine, q: nat, f: Fault)
    requires Executes(specs, text, run) && Occurs(specs, f) && (f.LongArray? || f.BadElement? || f.BadSeparator?)
    requires a.st.AwaitValue? && a.cursor < |specs| && specs[a.cursor].kind == KindOf(specs, f.key)
    requires At(text, q, ValueText(f))
    ensures Refuses(run, a, q, Code(specs, f))
  {
    var TArr(t, maxlen) := KindOf(specs, f.key);
    var read := ReaderOf(text, t);
    ReaderReadsBack(text, t);
    ReaderRejects(text, t);
    ArrayFault(specs, text, q, t, read, maxlen, f);
    ArrayRefuses(specs, text, run, a, q, read, Code(specs, f));
  }

  lemma ArrayFault(specs: seq<Spec>, text: string, pos: nat, t: ElemType, read: ElemReader, maxlen: nat, f: Fault)
    requires Advances(text, read) && ReadsBack(text, t, read) && Rejects(text, t, read)
    requires Occurs(specs, f) && (f.LongArray? || f.BadElement? || f.BadSeparator?)
    requires KindOf(specs, f.key) == TArr(t, maxlen) && At(text, pos, ValueText(f))
    ensures ArrayFails(text, pos, read, maxlen, Code(specs, f))
  {
    var (elems, pads, wrong) := (f.elems, f.pads, Wrong(f));
    var q := ArrayPieces(text, pos, CommaElems(elems, pads), wrong);
    WrongFails(specs, text, q, t, read, maxlen, f);
    ElemsFail(text, pos, t, read, maxlen, elems, pads, wrong, q, Code(specs, f));
  }

  lemma WrongFails(specs: seq<Spec>, text: string, q: nat, t: ElemType, read: ElemReader, maxlen: nat, f: Fault)
    requires Advances(text, read) && ReadsBack(text, t, read) && Rejects(text, t, read)
    requires Occurs(specs, f) && (f.LongArray? || f.BadElement? || f.BadSeparator?)
    requires KindOf(specs, f.key) == TArr(t, maxlen) && At(text, q, Wrong(f))
    ensures LoopFails(text, q, read, maxlen - |f.elems|, f.elems == [], Code(specs, f))
  {
    var (room, first) := (maxlen - |f.elems|, f.elems == []);
    match f
    case LongArray(_, _, _, _) => NoRoom(text, q, read, Code(specs, f));
    case BadElement(_, _, _, _, before, c) => BadElementLoop(text, q, t, read, room, before, c, first);
    case BadSeparator(_, _, _, _, last, pad, c) =>
      FieldsOf(specs, f);
      BadSeparatorLoop(text, q, t, read, room, last, pad, c, Wrong(f), first);
  }

  lemma FieldsOf(specs: seq<Spec>, f: Fault)
    requires Occurs(specs, f) && f.BadSeparator?
    ensures
      var TArr(t, maxlen) := KindOf(specs, f.key);
      && |f.elems| < maxlen && FitsElem(t, f.last) && White(f.pad.before) && White(f.pad.after)
      && !IsSpace(f.c) && f.c !in {',', ']', NUL} && DigitValue(f.c) == 99
      && Wrong(f) == f.pad.before + Print(f.last) + f.pad.after + [f.c] && Code(specs, f) == ERR_BADSUBTRAIL
  {}

  lemma NoRoom(text: string, q: nat, read: ElemReader, rc: nat)
    requires Advances(text, read) && q <= |text| && rc == ERR_SUBTOOLONG
    ensures LoopFails(text, q, read, 0, false, rc)
  {}

  lemma FaultRun(specs: seq<Spec>, text: string, run: Runner, m: Machine, pos: nat, f: Fault)
    requires Executes(specs, text, run) && DistinctNames(specs) && m.st.AwaitAttr? && Occurs(specs, f)
    requires At(text, pos, FaultText(f))
    ensures Refuses(run, m, pos, Code(specs, f))
  {
    match f
    case NoKey(c) =>
      AtChar(text, pos, [c]);
      NoKeyRun(specs, text, run, m, pos, c);
    case UnknownKey(key) => UnknownKeyRun(specs, text, run, m, pos, key);
    case LongKey(key) => LongKeyRun(specs, text, run, m, pos, key);
    case _ => NamedFault(specs, text, run, m, pos, f);
  }

  lemma NamedFault(specs: seq<Spec>, text: string, run: Runner, m: Machine, pos: nat, f: Fault)
    requires Executes(specs, text, run) && DistinctNames(specs) && m.st.AwaitAttr? && Occurs(specs, f)
    requires !f.NoKey? && !f.UnknownKey? && !f.LongKey?
    requires At(text, pos, KeyPart(f.key) + f.gap + ValueText(f))
    ensures Refuses(run, m, pos, Code(specs, f))
  {
    var a, q := NamedRun(specs, text, run, m, pos, f.key, f.gap, ValueText(f));
    ValueFault(specs, text, run, a, q, f);
  }

  /**
   After any good entries: each of these faults ends the reading with its code, whatever follows, and
   what was stored before stays stored.
   */
  lemma Refused(specs: seq<Spec>, lead: string, items: seq<Item>, n: nat, before: string, f: Fault, tail: string,
                text: string)
    requires DistinctNames(specs) && White(lead) && White(before) && ItemsOk(specs, items) && n == |items|
    requires Occurs(specs, f) && text == Opening(specs, lead, items, n) + (before + FaultText(f) + tail)
    ensures ReadObject(specs, text) == Final(Code(specs, f), Defaults(specs, 0) + LooseWrites(specs, items, n))
  {
    var run := RunnerOf(specs, text);
    var m, pos := Open(specs, lead, items, n, before + FaultText(f) + tail, text, run);
    RefusedHere(specs, text, run, m, pos, before, f, FaultText(f), tail);
  }

  lemma RefusedHere(specs: seq<Spec>, text: string, run: Runner, m: Machine, pos: nat, before: string, f: Fault,
                    piece: string, tail: string)
    requires Executes(specs, text, run) && DistinctNames(specs) && m.st.AwaitAttr? && Occurs(specs, f) && White(before)
    requires piece == FaultText(f) && At(text, pos, before + piece + tail)
    ensures Refuses(run, m, pos, Code(specs, f))
  {
    var q := NamedPieces(text, pos, before, piece, tail);
    WhiteRun(specs, text, run, m, pos, before);
    FaultRun(specs, text, run, m, pos + |before|, f);
  }

  /** A value that something else than a comma or a brace follows: refused, the value being stored. */
  lemma BadTrail(specs: seq<Spec>, lead: string, items: seq<Item>, n: nat, c: char, tail: string, text: string)
    requires DistinctNames(specs) && White(lead) && ItemsOk(specs, items) && n + 1 == |items|
    requires !IsSpace(c) && c !in {',', '}', NUL}
    requires var it := items[n]; it.entry.value.Str? || it.entry.value.Arr? || it.after != ""
    requires text == Opening(specs, lead, items, n) + (ItemText(items[n]) + [c] + tail)
    ensures ReadObject(specs, text) == Final(ERR_BADTRAIL, Defaults(specs, 0) + LooseWrites(specs, items, n + 1))
  {
    var run := RunnerOf(specs, text);
    var m, pos := Open(specs, lead, items, n, ItemText(items[n]) + [c] + tail, text, run);
    BadTrailHere(specs, text, run, m, pos, items, n, ItemText(items[n]), c, tail);
  }

  lemma BadTrailHere(specs: seq<Spec>, text: string, run: Runner, m: Machine, pos: nat, items: seq<Item>, n: nat,
                     piece: string, c: char, tail: string)
    requires Executes(specs, text, run) && DistinctNames(specs) && ItemsOk(specs, items) && n < |items|
    requires Ahead(specs, items, n, m) && piece == ItemText(items[n]) && At(text, pos, piece + [c] + tail)
    requires !IsSpace(c) && c !in {',', '}', NUL}
    requires var it := items[n]; it.entry.value.Str? || it.entry.value.Arr? || it.after != ""
    ensures run(m, pos) == Final(ERR_BADTRAIL, Defaults(specs, 0) + LooseWrites(specs, items, n + 1))
  {
    PieceThen(text, pos, piece, c, tail);
    var r := ItemThen(specs, text, run, m, pos, items[n], pos + |piece|);
    StoresAdd(specs, items, n, m, r);
  }

  /** An empty array is stored and then refused: its bracket is still unread, and no value may be followed by it. */
  lemma EmptyArray(specs: seq<Spec>, lead: string, items: seq<Item>, n: nat, key: string, gap: string, ws: string,
                   tail: string, text: string)
    requires DistinctNames(specs) && White(lead) && ItemsOk(specs, items) && n == |items| && White(ws)
    requires Named(specs, key, gap) && KindOf(specs, key).TArr?
    requires text == Opening(specs, lead, items, n) + (KeyPart(key) + gap + (['['] + ws + [']'] + tail))
    ensures ReadObject(specs, text)
         == Final(ERR_BADTRAIL,
                  Defaults(specs, 0) + LooseWrites(specs, items, n) + [Write(FindAttr(specs, key, 0), VArr([]))])
  {
    var run := RunnerOf(specs, text);
    var a, q := NamedOpen(specs, lead, items, n, key, gap, ['['] + ws + [']'] + tail, text, run);
    EmptyArrayRun(specs, text, run, a, q, ws, tail);
  }

  lemma EmptyArrayRun(specs: seq<Spec>, text: string, run: Runner, a: Machine, q: nat, ws: string, tail: string)
    requires Executes(specs, text, run) && a.st.AwaitValue? && a.cursor < |specs| && specs[a.cursor].kind.TArr?
    requires White(ws) && At(text, q, ['['] + ws + [']'] + tail)
    ensures run(a, q) == Final(ERR_BADTRAIL, a.store + [Write(a.cursor, VArr([]))])
  {
    var e := q + |['['] + ws|;
    PieceThen(text, q, ['['] + ws, ']', tail);
    AtSplit(text, q, ['['], ws);
    AtChar(text, q, ['[']);
    SkipWsRun(text, q + 1, ws);
    EmptyRead(text, q, e, ReaderOf(text, specs[a.cursor].kind.elem), specs[a.cursor].kind.maxlen);
    var n := a.(st := PostArray, store := a.store + [Write(a.cursor, VArr([]))]);
    RunStep(specs, text, run, a, q, Continue(n, e));
    RunStep(specs, text, run, n, e, Return(ERR_BADTRAIL, n.store));
  }

  lemma EmptyRead(text: string, q: nat, e: nat, read: ElemReader, maxlen: nat)
    requires Advances(text, read) && q < e < |text| && text[q] == '[' && SkipWs(text, q + 1) == e && text[e] == ']'
    ensures ReadArray(text, q, read, maxlen) == ArrayOk([], e)
  {
    NoSpace(text, q);
  }

  /** Something else than a brace at the beginning. */
  lemma NoObject(specs: seq<Spec>, lead: string, c: char, tail: string, text: string)
    requires White(lead) && !IsSpace(c) && c != '{' && c != NUL && text == lead + [c] + tail
    ensures ReadObject(specs, text) == Final(ERR_OBSTART, Defaults(specs, 0))
  {
    var run := RunnerOf(specs, text);
    RunnerExecutes(specs, text);
    assert At(text, 0, lead + [c] + tail);
    PieceThen(text, 0, lead, c, tail);
    WhiteRun(specs, text, run, Start(specs), 0, lead);
    StepRefuses(specs, text, run, Start(specs), |lead|, ERR_OBSTART);
  }

  // ----- What is not refused -----

  predicate Closing(s: string) { forall i :: 0 <= i < |s| ==> IsSpace(s[i]) || s[i] == '}' }

  lemma {:induction false} ClosingRun(specs: seq<Spec>, text: string, run: Runner, m: Machine, pos: nat, s: string)
    requires Executes(specs, text, run) && m.st.AwaitAttr? && Closing(s) && At(text, pos, s)
    ensures run(m, pos) == run(m, pos + |s|)
    decreases |s|
  {
    if s == [] {
    } else {
      AtChar(text, pos, s);
      RunStep(specs, text, run, m, pos, Continue(m, pos + 1));
      ClosingRun(specs, text, run, m, pos + 1, s[1..]);
    }
  }

  /** A text that ends where a key may stand is success: no brace is needed, and a comma before it does no harm. */
  lemma EndsEarly(specs: seq<Spec>, lead: string, items: seq<Item>, n: nat, s: string, text: string)
    requires DistinctNames(specs) && White(lead) && ItemsOk(specs, items) && n == |items| && Closing(s)
    requires text == Opening(specs, lead, items, n) + s
    ensures ReadObject(specs, text) == Final(OK, Defaults(specs, 0) + LooseWrites(specs, items, n))
  {
    var run := RunnerOf(specs, text);
    var m, pos := Open(specs, lead, items, n, s, text, run);
    ClosingRun(specs, text, run, m, pos, s);
    assert run(m, |text|) == Final(OK, m.store);
  }

  /** So does a text that ends anywhere else: the reader never asks for more. */
  lemma EndIsSuccess(specs: seq<Spec>, m: Machine, text: string)
    requires Ready(specs, m)
    ensures Run(specs, m, text, |text|) == Final(OK, m.store)
  {}

  /** Where a string with the escape of a code point ends up: cut before it. */
  lemma UnicodeCuts(specs: seq<Spec>, text: string, run: Runner, m: Machine, pos: nat, x: string, rest: string)
    requires Executes(specs, text, run) && m.st.InValString? && m.cursor < |specs|
    requires |x| == 3 && Literal(x) && At(text, pos, ['\\', 'u'] + (x + rest)) && rest != "" && rest[0] != NUL
    ensures At(text, pos + 5, rest) && run(m, pos) == run(m.(val := m.val + [NUL]), pos + 5)
    ensures CString(m.val + [NUL] + rest) == CString(m.val)
  {
    AtSplit(text, pos, ['\\', 'u'], x + rest);
    AtChar(text, pos, ['\\', 'u']);
    AtChar(text, pos + 1, ['u']);
    AtSplit(text, pos + 2, x, rest);
    AtChar(text, pos + 2, x);
    AtChar(text, pos + 3, x[1..]);
    AtChar(text, pos + 4, x[1..][1..]);
    AtChar(text, pos + 5, rest);
    var e := m.(st := InEscape);
    RunStep(specs, text, run, m, pos, Continue(e, pos + 1));
    FourRead(text, pos + 2);
    RunStep(specs, text, run, e, pos + 1, Continue(m.(val := m.val + [NUL]), pos + 5));
    CutAtNul(m.val, rest);
  }

  /** Characters that are written with an escape are read without a bound. */
  lemma {:induction false} EscapesRun(specs: seq<Spec>, text: string, run: Runner, m: Machine, pos: nat, e: string,
                                      end: nat)
    requires Executes(specs, text, run) && m.st.InValString? && m.cursor < |specs| && NulFree(e)
    requires forall i :: 0 <= i < |e| ==> |EscapeChar(e[i])| == 2
    requires At(text, pos, Escape(e)) && end == pos + |Escape(e)|
    ensures run(m, pos) == run(m.(val := m.val + e), end)
    decreases |e|
  {
    if e == [] {
      assert m.val + e == m.val;
    } else {
      AtSplit(text, pos, EscapeChar(e[0]), Escape(e[1..]));
      var x := EscapeShape(e[0]);
      EscapeRun(specs, text, run, m, pos, x);
      var n := m.(val := m.val + [e[0]]);
      EscapesRun(specs, text, run, n, pos + 2, e[1..], end);
      assert n.val + e[1..] == m.val + e;
    }
  }

  /**
   A string in a buffer of `len` characters: up to `len` of any kind, and after them any number of escaped
   ones.  It is stored cut to `len`, so one of `len` characters or more is left without its terminator.
   */
  lemma StringIsCut(specs: seq<Spec>, lead: string, items: seq<Item>, n: nat, key: string, gap: string, x: string,
                    e: string, len: nat, tail: string, text: string)
    requires DistinctNames(specs) && White(lead) && ItemsOk(specs, items) && n == |items|
    requires Named(specs, key, gap) && KindOf(specs, key) == TStr(len) && NulFree(x) && NulFree(e)
    requires |x| <= len && |x| + |e| <= VAL_MAX && forall i :: 0 <= i < |e| ==> |EscapeChar(e[i])| == 2
    requires text == Opening(specs, lead, items, n)
                     + (KeyPart(key) + gap + (['"'] + Escape(x) + Escape(e) + ['"'] + ['}'] + tail))
    ensures ReadObject(specs, text)
         == Final(OK, Defaults(specs, 0) + LooseWrites(specs, items, n)
                      + [Write(FindAttr(specs, key, 0), VStr(Cut(x + e, len)))])
  {
    var run := RunnerOf(specs, text);
    var rest := ['"'] + Escape(x) + Escape(e) + ['"'] + ['}'] + tail;
    var a, q := NamedOpen(specs, lead, items, n, key, gap, rest, text, run);
    CutRun(specs, text, run, a, q, x, e, len, tail);
  }

  function Cut(s: string, len: nat): string { if |s| <= len then s else s[..len] }

  lemma CutRun(specs: seq<Spec>, text: string, run: Runner, a: Machine, q: nat, x: string, e: string, len: nat,
               tail: string)
    requires Executes(specs, text, run) && DistinctNames(specs) && a.st.AwaitValue? && a.cursor < |specs|
    requires specs[a.cursor].kind == TStr(len) && a.maxlen == len - 1 && specs[a.cursor].name == a.attr
    requires NulFree(x) && NulFree(e) && |x| <= len && |x| + |e| <= VAL_MAX
    requires forall i :: 0 <= i < |e| ==> |EscapeChar(e[i])| == 2
    requires At(text, q, ['"'] + Escape(x) + Escape(e) + ['"'] + ['}'] + tail)
    ensures run(a, q) == Final(OK, a.store + [Write(a.cursor, VStr(Cut(x + e, len)))])
  {
    var p, r, end := CutPieces(text, q, Escape(x), Escape(e), tail);
    StringBegin(specs, text, run, a, q);
    var m1 := a.(st := InValString, quoted := true, val := "");
    StringRun(specs, text, run, m1, p, x, r);
    assert m1.val + x == x;
    EscapesRun(specs, text, run, m1.(val := x), r, e, end);
    CutStored(specs, text, run, m1.(val := x + e), end, len);
  }

  lemma CutPieces(text: string, q: nat, x: string, e: string, tail: string) returns (p: nat, r: nat, end: nat)
    requires At(text, q, ['"'] + x + e + ['"'] + ['}'] + tail)
    ensures p == q + 1 && r == p + |x| && end == r + |e| && end + 1 < |text|
    ensures text[q] == '"' && At(text, p, x) && At(text, r, e) && text[end] == '"' && text[end + 1] == '}'
  {
    p, r, end := q + 1, q + 1 + |x|, q + 1 + |x| + |e|;
    PieceThen(text, q, ['"'] + x + e + ['"'], '}', tail);
    AtSplit(text, q, ['"'] + x + e, ['"']);
    AtChar(text, end, ['"']);
    AtSplit(text, q, ['"'] + x, e);
    AtSplit(text, q, ['"'], x);
    AtChar(text, q, ['"']);
  }

  lemma CutStored(specs: seq<Spec>, text: string, run: Runner, m: Machine, end: nat, len: nat)
    requires Executes(specs, text, run) && DistinctNames(specs) && m.st.InValString? && m.cursor < |specs|
    requires specs[m.cursor].kind == TStr(len) && specs[m.cursor].name == m.attr && m.quoted && NulFree(m.val)
    requires end + 1 < |text| && text[end] == '"' && text[end + 1] == '}'
    ensures run(m, end) == Final(OK, m.store + [Write(m.cursor, VStr(Cut(m.val, len)))])
  {
    StringEnd(specs, text, run, m, end);
    var n := m.(st := PostVal);
    PostValStep(specs, n, text, end + 1, VStr(Cut(m.val, len)));
    RunStep(specs, text, run, n, end + 1, Return(OK, m.store + [Write(m.cursor, VStr(Cut(m.val, len)))]));
  }

  lemma FourRead(text: string, pos: nat)
    requires pos + 3 < |text| && text[pos] != NUL && text[pos + 1] != NUL && text[pos + 2] != NUL
    ensures AfterU(text, pos, 0, 'u') == pos + 3
  {
    assert AfterU(text, pos, 0, 'u') == AfterU(text, pos + 1, 1, text[pos]);
    assert AfterU(text, pos + 1, 1, text[pos]) == AfterU(text, pos + 2, 2, text[pos + 1]);
    assert AfterU(text, pos + 2, 2, text[pos + 1]) == AfterU(text, pos + 3, 3, text[pos + 2]);
    assert AfterU(text, pos + 3, 3, text[pos + 2]) == AfterU(text, pos + 4, 4, text[pos + 3]);
  }

  lemma {:induction false} CutAtNul(s: string, rest: string)
    ensures CString(s + [NUL] + rest) == CString(s)
    decreases |s|
  {
    if s == [] {
    } else {
      assert (s + [NUL] + rest)[1..] == s[1..] + [NUL] + rest;
      CutAtNul(s[1..], rest);
    }
  }

  // ----- Attributes of several types -----

  /** The value is of the attribute's type. */
  predicate Suits(kind: FieldType, val: string, quoted: bool) {
    match kind
    case TStr(_) => quoted
    case TBool => val == "true" || val == "false"
    case TArr(_, _) => false
    case _ => val != [] && IsDigit(val[0]) && '.' !in val
  }

  /** Among neighbours of one name the first whose type suits the value gets it, or else the last. */
  lemma {:induction false} SeekFinds(specs: seq<Spec>, name: string, val: string, quoted: bool, cursor: nat)
    requires cursor < |specs|
    ensures
      var r := SeekType(specs, name, val, quoted, cursor);
      && (forall i :: cursor <= i < r ==> !Suits(specs[i].kind, val, quoted))
      && (forall i :: cursor < i <= r ==> specs[i].name == name)
      && (Suits(specs[r].kind, val, quoted) || r + 1 == |specs| || specs[r + 1].name != name)
    decreases |specs| - cursor
  {
    SeekHere(specs, name, val, quoted, cursor);
    if !Suits(specs[cursor].kind, val, quoted) && cursor + 1 < |specs| && specs[cursor + 1].name == name {
      SeekFinds(specs, name, val, quoted, cursor + 1);
    }
  }

  lemma SeekHere(specs: seq<Spec>, name: string, val: string, quoted: bool, cursor: nat)
    requires cursor < |specs|
    ensures
      var stop := Suits(specs[cursor].kind, val, quoted) || cursor + 1 == |specs| || specs[cursor + 1].name != name;
      SeekType(specs, name, val, quoted, cursor)
      == if stop then cursor else SeekType(specs, name, val, quoted, cursor + 1)
  {
  }

  /** Before anything is read every target with a default holds it, and no other is written. */
  lemma {:induction false} DefaultsHold(specs: seq<Spec>, i: nat, k: nat, old_: Stored)
    requires i <= |specs|
    ensures Latest(Defaults(specs, i), k, old_)
         == if i <= k < |specs| && specs[k].default.Some? then specs[k].default.value else old_
    decreases |specs| - i
  {
    if i == |specs| {
    } else {
      DefaultsHold(specs, i + 1, k, old_);
      var first := if specs[i].default.Some? then [Write(i, specs[i].default.value)] else [];
      LatestAppend(first, Defaults(specs, i + 1), k, old_);
      if first != [] {
        assert first[..0] == [];
        DefaultsHold(specs, i + 1, k, Latest(first, k, old_));
      }
    }
  }
}
