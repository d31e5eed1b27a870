/**
 Reading text that the encoder did not write: objects with any white space between their parts, what
 is refused and with which code, and what a text that stops early or escapes a character amounts to.
 */
module JsonLoose {
  import opened CText
  import opened Common
  import opened JsonEncode
  import opened JsonDecode
  import opened JsonRoundTrip

  // ----- Entries with white space -----

  predicate White(s: string) { forall i :: 0 <= i < |s| ==> IsSpace(s[i]) }

  /** What may stand between a key and its value: the reader takes colons for white space there. */
  predicate Gap(s: string) { forall i :: 0 <= i < |s| ==> IsSpace(s[i]) || s[i] == ':' }

  /** White space around an array element. */
  datatype Pad = Pad(before: string, after: string)

  /** An entry with what stands before its key, between key and value, around elements, and after the value. */
  datatype Item = Item(entry: Entry, before: string, gap: string, pads: seq<Pad>, after: string)

  ghost predicate PadsOk(pads: seq<Pad>) {
    forall i :: 0 <= i < |pads| ==> White(pads[i].before) && White(pads[i].after)
  }

  ghost predicate ItemOk(specs: seq<Spec>, it: Item) {
    && FitsTemplate(specs, it.entry) && White(it.before) && Gap(it.gap) && White(it.after) && PadsOk(it.pads)
    && (it.entry.value.Arr? ==> |it.pads| == |it.entry.value.elems|)
  }

  function LooseElems(elems: seq<Value>, pads: seq<Pad>): string
    requires |elems| == |pads|
  {
    if elems == [] then ""
    else pads[0].before + Print(elems[0]) + pads[0].after + CommaIf(|elems| > 1) + LooseElems(elems[1..], pads[1..])
  }

  function LooseValue(v: Value, pads: seq<Pad>): string
    requires v.Arr? ==> |pads| == |v.elems|
  {
    if v.Arr? then "[" + LooseElems(v.elems, pads) + "]" else Print(v)
  }

  function KeyPart(key: string): string { "\"" + key + "\"" }

  ghost function ItemText(it: Item): string
    requires it.entry.value.Arr? ==> |it.pads| == |it.entry.value.elems|
  {
    it.before + KeyPart(it.entry.key) + it.gap + LooseValue(it.entry.value, it.pads) + it.after
  }

  // ----- Skipping -----

  /** White space that leaves the reader where it is. */
  ghost predicate Skips(specs: seq<Spec>, m: Machine, c: char) {
    && Ready(specs, m) && c != NUL
    && match m.st {
         case Init => IsSpace(c)
         case AwaitAttr => IsSpace(c)
         case AwaitValue => IsSpace(c) || c == ':'
         case PostArray => IsSpace(c)
         case _ => false
       }
  }

  lemma {:induction false} SkipRun(specs: seq<Spec>, text: string, run: Runner, m: Machine, pos: nat, s: string)
    requires Executes(specs, text, run) && At(text, pos, s)
    requires forall i :: 0 <= i < |s| ==> Skips(specs, m, s[i])
    ensures run(m, pos) == run(m, pos + |s|)
    decreases |s|
  {
    if s == [] {
    } else {
      AtChar(text, pos, s);
      RunStep(specs, text, run, m, pos, Continue(m, pos + 1));
      SkipRun(specs, text, run, m, pos + 1, s[1..]);
    }
  }

  lemma {:induction false} SkipWsRun(text: string, pos: nat, s: string)
    requires At(text, pos, s) && White(s) && pos + |s| < |text| && !IsSpace(text[pos + |s|])
    ensures SkipWs(text, pos) == pos + |s|
    decreases |s|
  {
    if s == [] {
    } else {
      AtChar(text, pos, s);
      SkipWsRun(text, pos + 1, s[1..]);
    }
  }

  // ----- Arrays with white space -----

  /** The pieces of an element with white space around it, and what follows. */
  lemma PaddedPieces(text: string, pos: nat, a: string, x: string, b: string, c: char, tail: string)
    requires At(text, pos, a + x + b + [c] + tail)
    ensures At(text, pos, a) && At(text, pos + |a|, x) && At(text, pos + |a| + |x|, b)
    ensures var e := pos + |a| + |x| + |b|; e < |text| && text[e] == c && At(text, e + 1, tail)
  {
    AtSplit(text, pos, a + x + b + [c], tail);
    AtSplit(text, pos, a + x + b, [c]);
    AtSplit(text, pos, a + x, b);
    AtSplit(text, pos, a, x);
    AtChar(text, pos + |a| + |x| + |b|, [c]);
  }

  /** The character after a piece: the first of the white space, or what stands behind it. */
  lemma CharAfter(text: string, pos: nat, b: string, c: char)
    requires At(text, pos, b) && White(b) && pos + |b| < |text| && text[pos + |b|] == c && DigitValue(c) == 99
    ensures pos < |text| && DigitValue(text[pos]) == 99
  {
    if b != [] { AtChar(text, pos, b); }
  }

  /** An element with white space around it, and what follows. */
  lemma PaddedElem(text: string, pos: nat, t: ElemType, read: ElemReader, v: Value, pad: Pad, c: char, tail: string)
    returns (p: nat, q: nat, e: nat)
    requires ReadsBack(text, t, read) && FitsElem(t, v) && White(pad.before) && White(pad.after)
    requires !IsSpace(c) && DigitValue(c) == 99
    requires At(text, pos, pad.before + Print(v) + pad.after + [c] + tail)
    ensures p == pos + |pad.before| && q == p + |Print(v)| && e == q + |pad.after| && p < q <= e < |text|
    ensures SkipWs(text, pos) == p && read(p) == ElemOk(Meaning(v), q) && text[p] != ']' && !IsSpace(text[p])
    ensures SkipWs(text, q) == e && text[e] == c && At(text, e + 1, tail)
  {
    PaddedPieces(text, pos, pad.before, Print(v), pad.after, c, tail);
    p := pos + |pad.before|;
    q := p + |Print(v)|;
    e := q + |pad.after|;
    CharAfter(text, q, pad.after, c);
    assert ElemAt(text, p, t, v);
    SkipWsRun(text, pos, pad.before);
    SkipWsRun(text, q, pad.after);
  }

  lemma LooseElemsSplit(elems: seq<Value>, pads: seq<Pad>) returns (c: char, tail: string)
    requires elems != [] && |elems| == |pads|
    ensures LooseElems(elems, pads) + [']'] == pads[0].before + Print(elems[0]) + pads[0].after + [c] + tail
    ensures if |elems| == 1 then c == ']' && tail == []
            else c == ',' && tail == LooseElems(elems[1..], pads[1..]) + [']']
  {
    c := if |elems| == 1 then ']' else ',';
    tail := if |elems| == 1 then [] else LooseElems(elems[1..], pads[1..]) + [']'];
    if |elems| == 1 { assert elems[1..] == [] && LooseElems(elems[1..], pads[1..]) == ""; }
  }

  ghost predicate ElemsFit(t: ElemType, elems: seq<Value>, pads: seq<Pad>) {
    |pads| == |elems| && PadsOk(pads) && forall i :: 0 <= i < |elems| ==> FitsElem(t, elems[i])
  }

  /** At `pos` there are elements and the closing bracket, up to `end`. */
  ghost predicate LooseElemsAt(text: string, pos: nat, elems: seq<Value>, pads: seq<Pad>, end: nat)
    requires |elems| == |pads|
  {
    At(text, pos, LooseElems(elems, pads) + [']']) && end == pos + |LooseElems(elems, pads)| + 1
  }

  lemma {:induction false} ReadLooseElems(text: string, pos: nat, t: ElemType, read: ElemReader, elems: seq<Value>,
                                          pads: seq<Pad>, room: nat, end: nat)
    requires Advances(text, read) && ReadsBack(text, t, read)
    requires 1 <= |elems| <= room && ElemsFit(t, elems, pads) && LooseElemsAt(text, pos, elems, pads, end)
    ensures Yields(ReadElems(text, pos, read, room), Meanings(elems), end)
    decreases |elems|
  {
    var (xs, ys) := (elems[1..], pads[1..]);
    var q, e := LooseHop(text, pos, t, read, elems, pads, xs, ys, end);
    if xs != [] { ReadLooseElems(text, e + 1, t, read, xs, ys, room - 1, end); }
    ElemYields(text, pos, read, room, Meaning(elems[0]), q, e, Meanings(xs), end);
    assert Meanings(elems) == [Meaning(elems[0])] + Meanings(xs);
  }

  lemma LooseHop(text: string, pos: nat, t: ElemType, read: ElemReader, elems: seq<Value>, pads: seq<Pad>,
                 xs: seq<Value>, ys: seq<Pad>, end: nat) returns (q: nat, e: nat)
    requires ReadsBack(text, t, read) && elems != [] && ElemsFit(t, elems, pads)
    requires LooseElemsAt(text, pos, elems, pads, end) && xs == elems[1..] && ys == pads[1..]
    ensures read(SkipWs(text, pos)) == ElemOk(Meaning(elems[0]), q) && SkipWs(text, q) == e < |text|
    ensures text[e] == if xs == [] then ']' else ','
    ensures ElemsFit(t, xs, ys) && if xs == [] then end == e + 1 else LooseElemsAt(text, e + 1, xs, ys, end)
  {
    var c, tail := LooseElemsSplit(elems, pads);
    var p;
    p, q, e := PaddedElem(text, pos, t, read, elems[0], pads[0], c, tail);
    assert |LooseElems(elems, pads) + [']']| == |pads[0].before| + |Print(elems[0])| + |pads[0].after| + 1 + |tail|;
  }

  /** One element: the last one, or one before others. */
  lemma ElemYields(text: string, pos: nat, read: ElemReader, room: nat, x: Stored, q: nat, e: nat, xs: seq<Stored>,
                   end: nat)
    requires Advances(text, read) && room > 0 && read(SkipWs(text, pos)) == ElemOk(x, q) && SkipWs(text, q) == e
    requires e < |text| && text[e] == if xs == [] then ']' else ','
    requires if xs == [] then end == e + 1 else Yields(ReadElems(text, e + 1, read, room - 1), xs, end)
    ensures Yields(ReadElems(text, pos, read, room), [x] + xs, end)
  {}

  lemma ReadLooseArray(text: string, pos: nat, t: ElemType, read: ElemReader, maxlen: nat, elems: seq<Value>,
                       pads: seq<Pad>)
    requires Advances(text, read) && ReadsBack(text, t, read)
    requires 1 <= |elems| == |pads| <= maxlen && PadsOk(pads) && forall i :: 0 <= i < |elems| ==> FitsElem(t, elems[i])
    requires At(text, pos, ['['] + (LooseElems(elems, pads) + [']']))
    ensures Yields(ReadArray(text, pos, read, maxlen), Meanings(elems), pos + |LooseElems(elems, pads)| + 2)
  {
    var body := LooseElems(elems, pads) + [']'];
    AtSplit(text, pos, ['['], body);
    AtChar(text, pos, ['[']);
    NoSpace(text, pos);
    var q := OpenElems(text, pos + 1, t, read, elems, pads);
    ReadLooseElems(text, q, t, read, elems, Closed(pads), maxlen,
                   pos + |LooseElems(elems, pads)| + 2);
  }

  /** The white space after the bracket is skipped before the loop. */
  lemma OpenElems(text: string, pos: nat, t: ElemType, read: ElemReader, elems: seq<Value>, pads: seq<Pad>)
    returns (q: nat)
    requires ReadsBack(text, t, read) && elems != [] && |elems| == |pads| && PadsOk(pads) && FitsElem(t, elems[0])
    requires At(text, pos, LooseElems(elems, pads) + [']'])
    ensures SkipWs(text, pos) == q == pos + |pads[0].before| && CharAt(text, q) != ']'
    ensures At(text, q, LooseElems(elems, Closed(pads)) + [']'])
    ensures |LooseElems(elems, Closed(pads))| + |pads[0].before| == |LooseElems(elems, pads)|
  {
    var c, tail := LooseElemsSplit(elems, pads);
    var p, r, e := PaddedElem(text, pos, t, read, elems[0], pads[0], c, tail);
    q := p;
    ClosedPieces(text, pos, elems, pads);
  }

  lemma ClosedPieces(text: string, pos: nat, elems: seq<Value>, pads: seq<Pad>)
    requires elems != [] && |elems| == |pads| && At(text, pos, LooseElems(elems, pads) + [']'])
    ensures At(text, pos + |pads[0].before|, LooseElems(elems, Closed(pads)) + [']'])
    ensures |LooseElems(elems, Closed(pads))| + |pads[0].before| == |LooseElems(elems, pads)|
  {
    FirstPad(elems, pads);
    var b := pads[0].before;
    AtSplit(text, pos, b, LooseElems(elems, Closed(pads)) + [']']);
    assert |LooseElems(elems, pads) + [']']| == |b| + |LooseElems(elems, Closed(pads)) + [']']|;
  }

  /** Without the white space before the first element. */
  function Closed(pads: seq<Pad>): (r: seq<Pad>)
    requires pads != []
    ensures |r| == |pads| && r[0] == Pad("", pads[0].after) && r[1..] == pads[1..]
  {
    [Pad("", pads[0].after)] + pads[1..]
  }

  lemma FirstPad(elems: seq<Value>, pads: seq<Pad>)
    requires elems != [] && |elems| == |pads|
    ensures LooseElems(elems, pads) + [']'] == pads[0].before + (LooseElems(elems, Closed(pads)) + [']'])
  {
    var (b, x, a, c) := (pads[0].before, Print(elems[0]), pads[0].after, CommaIf(|elems| > 1));
    var rest := LooseElems(elems[1..], pads[1..]);
    TakeOut(b, x, a, c, rest);
  }

  lemma TakeOut(b: string, x: string, a: string, c: string, rest: string)
    ensures b + x + a + c + rest + [']'] == b + ("" + x + a + c + rest + [']'])
  {}

  // ----- Values with white space behind them -----

  /** The same write several times. */
  function Rep(w: Write, n: nat): (r: Store)
    ensures |r| == n && forall i :: 0 <= i < n ==> r[i] == w
  {
    if n == 0 then [] else Rep(w, n - 1) + [w]
  }

  lemma {:induction false} RepFront(w: Write, n: nat)
    ensures [w] + Rep(w, n) == Rep(w, n + 1)
  {
    if n == 0 {
    } else {
      RepFront(w, n - 1);
      assert [w] + Rep(w, n) == ([w] + Rep(w, n - 1)) + [w];
    }
  }

  /**
   How often the value is stored before the character that ends it: once for every white space
   character seen after it, of which the first one after a token only ends the token.
   */
  function Early(kind: FieldType, after: string): nat {
    match kind
    case TArr(_, _) => 0
    case TStr(_) => |after|
    case _ => if after == "" then 0 else |after| - 1
  }

  /** White space in state `post_val`: every character stores the value again. */
  lemma {:induction false} PostValSpaces(specs: seq<Spec>, text: string, run: Runner, m: Machine, pos: nat, x: Stored,
                                         s: string)
    requires Executes(specs, text, run) && At(text, pos, s) && White(s) && m.st.PostVal?
    requires DistinctNames(specs) && m.cursor < |specs| && specs[m.cursor].name == m.attr && NulFree(m.val)
    requires m.quoted == specs[m.cursor].kind.TStr? && Convert(specs[m.cursor].kind, m.val) == Some(x)
    ensures run(m, pos) == run(m.(store := m.store + Rep(Write(m.cursor, x), |s|)), pos + |s|)
    decreases |s|
  {
    var w := Write(m.cursor, x);
    if s == [] {
      assert m.store + Rep(w, 0) == m.store;
    } else {
      AtChar(text, pos, s);
      var n := m.(store := m.store + [w]);
      PostValStep(specs, m, text, pos, x);
      RunStep(specs, text, run, m, pos, Continue(n, pos + 1));
      PostValSpaces(specs, text, run, n, pos + 1, x, s[1..]);
      RepFront(w, |s| - 1);
      assert n.store + Rep(w, |s| - 1) == m.store + ([w] + Rep(w, |s| - 1));
    }
  }

  /** A token that ends in white space, whose first character is used up. */
  lemma TokenThenSpace(specs: seq<Spec>, text: string, run: Runner, m: Machine, pos: nat, p: string, end: nat)
    requires Executes(specs, text, run)
    requires m.st.AwaitValue? && m.cursor < |specs| && !specs[m.cursor].kind.TArr?
    requires 0 < |p| <= VAL_MAX && (forall i :: 0 <= i < |p| ==> TokenChar(p[i])) && p[0] !in {'"', '[', ':'}
    requires At(text, pos, p) && end == pos + |p| && end < |text| && IsSpace(text[end])
    ensures run(m, pos) == run(m.(st := PostVal, quoted := false, val := p), end + 1)
  {
    AtChar(text, pos, p);
    var m1 := m.(st := InValToken, quoted := false, val := [p[0]]);
    TokenBegin(specs, text, run, m, pos);
    TokenRun(specs, text, run, m1, pos + 1, p[1..]);
    assert [p[0]] + p[1..] == p;
    var m2 := m1.(val := p);
    RunStep(specs, text, run, m2, end, Continue(m2.(st := PostVal), end + 1));
  }

  /** The reader waits for the value of an attribute that this value fits. */
  ghost predicate Waits(specs: seq<Spec>, m: Machine, v: Value) {
    && DistinctNames(specs) && m.st.AwaitValue? && m.cursor < |specs| && specs[m.cursor].name == m.attr
    && Fits(specs[m.cursor].kind, v) && m.maxlen == MaxLen(specs[m.cursor].kind, m.maxlen)
  }

  /** After the value and its white space, as if the value had just been read after the early stores. */
  function Trailing(specs: seq<Spec>, m: Machine, v: Value, after: string): Machine
    requires m.cursor < |specs| && Fits(specs[m.cursor].kind, v)
  {
    var n := Early(specs[m.cursor].kind, after);
    AtEnd(specs, m.(store := m.store + Rep(Write(m.cursor, Meaning(v)), n)), v)
  }

  lemma LooseString(specs: seq<Spec>, text: string, run: Runner, m: Machine, pos: nat, v: Value, after: string)
    requires Executes(specs, text, run) && Waits(specs, m, v) && specs[m.cursor].kind.TStr? && White(after)
    requires At(text, pos, Print(v)) && At(text, pos + |Print(v)|, after)
    ensures run(m, pos) == run(Trailing(specs, m, v, after), pos + |Print(v)| + |after|)
  {
    StringValue(specs, text, run, m, pos, v);
    PostValSpaces(specs, text, run, AtEnd(specs, m, v), pos + |Print(v)|, Meaning(v), after);
  }

  lemma LooseToken(specs: seq<Spec>, text: string, run: Runner, m: Machine, pos: nat, v: Value, after: string)
    requires Executes(specs, text, run) && Waits(specs, m, v) && White(after)
    requires !specs[m.cursor].kind.TStr? && !specs[m.cursor].kind.TArr?
    requires At(text, pos, Print(v)) && At(text, pos + |Print(v)|, after)
    requires after != "" || (pos + |Print(v)| < |text| && text[pos + |Print(v)|] in {',', '}'})
    ensures run(m, pos) == run(Trailing(specs, m, v, after), pos + |Print(v)| + |after|)
  {
    if after == "" {
      TokenValue(specs, text, run, m, pos, v);
      assert m.store + Rep(Write(m.cursor, Meaning(v)), 0) == m.store;
    } else {
      SpacedToken(specs, text, run, m, pos, v, after);
    }
  }

  lemma SpacedToken(specs: seq<Spec>, text: string, run: Runner, m: Machine, pos: nat, v: Value, after: string)
    requires Executes(specs, text, run) && Waits(specs, m, v) && White(after) && after != ""
    requires !specs[m.cursor].kind.TStr? && !specs[m.cursor].kind.TArr?
    requires At(text, pos, Print(v)) && At(text, pos + |Print(v)|, after)
    ensures run(m, pos) == run(Trailing(specs, m, v, after), pos + |Print(v)| + |after|)
  {
    var (end, p) := (pos + |Print(v)|, Print(v));
    var n := m.(st := PostVal, quoted := false, val := p);
    AtChar(text, end, after);
    TokenToSpace(specs, text, run, m, pos, v, end, n);
    TokenSpaces(specs, text, run, m, end + 1, v, after[1..], n, Trailing(specs, m, v, after), after);
  }

  lemma TokenToSpace(specs: seq<Spec>, text: string, run: Runner, m: Machine, pos: nat, v: Value, end: nat, n: Machine)
    requires Executes(specs, text, run) && Waits(specs, m, v) && At(text, pos, Print(v))
    requires !specs[m.cursor].kind.TStr? && !specs[m.cursor].kind.TArr?
    requires end == pos + |Print(v)| && end < |text| && IsSpace(text[end])
    requires n == m.(st := PostVal, quoted := false, val := Print(v))
    ensures run(m, pos) == run(n, end + 1)
  {
    TokenOf(specs[m.cursor].kind, v);
    TokenThenSpace(specs, text, run, m, pos, Print(v), end);
  }

  lemma TokenSpaces(specs: seq<Spec>, text: string, run: Runner, m: Machine, pos: nat, v: Value, s: string, n: Machine,
                    t: Machine, after: string)
    requires Executes(specs, text, run) && Waits(specs, m, v) && At(text, pos, s) && White(s) && |s| + 1 == |after|
    requires !specs[m.cursor].kind.TStr? && !specs[m.cursor].kind.TArr?
    requires n == m.(st := PostVal, quoted := false, val := Print(v)) && t == Trailing(specs, m, v, after)
    ensures run(n, pos) == run(t, pos + |s|)
  {
    TokenOf(specs[m.cursor].kind, v);
    PostValSpaces(specs, text, run, n, pos, Meaning(v), s);
    SpacedTrailing(specs, m, v, after);
  }

  lemma SpacedTrailing(specs: seq<Spec>, m: Machine, v: Value, after: string)
    requires m.cursor < |specs| && Fits(specs[m.cursor].kind, v) && after != ""
    requires !specs[m.cursor].kind.TStr? && !specs[m.cursor].kind.TArr?
    ensures Trailing(specs, m, v, after)
         == m.(st := PostVal, quoted := false, val := Print(v),
               store := m.store + Rep(Write(m.cursor, Meaning(v)), |after| - 1))
  {}

  lemma LooseArray(specs: seq<Spec>, text: string, run: Runner, m: Machine, pos: nat, v: Value, pads: seq<Pad>,
                   after: string)
    requires Executes(specs, text, run) && Waits(specs, m, v) && specs[m.cursor].kind.TArr? && White(after)
    requires |pads| == |v.elems| && PadsOk(pads)
    requires At(text, pos, LooseValue(v, pads)) && At(text, pos + |LooseValue(v, pads)|, after)
    ensures run(m, pos) == run(Trailing(specs, m, v, after), pos + |LooseValue(v, pads)| + |after|)
  {
    var end := pos + |LooseValue(v, pads)|;
    ArrayRead(specs, text, run, m, pos, v, pads);
    SkipRun(specs, text, run, AtEnd(specs, m, v), end, after);
    assert m.store + Rep(Write(m.cursor, Meaning(v)), 0) == m.store;
  }

  lemma ArrayRead(specs: seq<Spec>, text: string, run: Runner, m: Machine, pos: nat, v: Value, pads: seq<Pad>)
    requires Executes(specs, text, run) && Waits(specs, m, v) && specs[m.cursor].kind.TArr?
    requires |pads| == |v.elems| && PadsOk(pads) && At(text, pos, LooseValue(v, pads))
    ensures run(m, pos) == run(AtEnd(specs, m, v), pos + |LooseValue(v, pads)|)
  {
    var end := pos + |LooseValue(v, pads)|;
    AwaitLoose(specs, text, m, pos, v, pads, AtEnd(specs, m, v), end);
    ArrayStep(specs, text, run, m, pos, AtEnd(specs, m, v), end);
  }

  lemma AwaitLoose(specs: seq<Spec>, text: string, m: Machine, pos: nat, v: Value, pads: seq<Pad>, n: Machine, end: nat)
    requires n.st.PostArray? && n == m.(st := n.st, store := m.store + [Write(m.cursor, Meaning(v))])
    requires m.st.AwaitValue? && m.cursor < |specs| && Fits(specs[m.cursor].kind, v) && specs[m.cursor].kind.TArr?
    requires |pads| == |v.elems| && PadsOk(pads) && At(text, pos, LooseValue(v, pads))
    requires end == pos + |LooseValue(v, pads)|
    ensures pos < |text| && text[pos] == '[' && OnAwaitValue(specs, m, text[pos], text, pos + 1) == Continue(n, end)
  {
    var kind := specs[m.cursor].kind;
    assert LooseValue(v, pads) == ['['] + (LooseElems(v.elems, pads) + [']']);
    AtChar(text, pos, LooseValue(v, pads));
    ReaderReadsBack(text, kind.elem);
    ReadLooseArray(text, pos, kind.elem, ReaderOf(text, kind.elem), kind.maxlen, v.elems, pads);
    AwaitArray(specs, text, m, pos, Meanings(v.elems), end);
  }

  lemma LooseValueRun(specs: seq<Spec>, text: string, run: Runner, m: Machine, pos: nat, v: Value, pads: seq<Pad>,
                      after: string)
    requires Executes(specs, text, run) && Waits(specs, m, v) && White(after) && PadsOk(pads)
    requires v.Arr? ==> |pads| == |v.elems|
    requires At(text, pos, LooseValue(v, pads)) && At(text, pos + |LooseValue(v, pads)|, after)
    requires v.Str? || v.Arr? || after != ""
             || (var e := pos + |LooseValue(v, pads)|; e < |text| && text[e] in {',', '}'})
    ensures run(m, pos) == run(Trailing(specs, m, v, after), pos + |LooseValue(v, pads)| + |after|)
  {
    match specs[m.cursor].kind
    case TArr(_, _) => LooseArray(specs, text, run, m, pos, v, pads, after);
    case TStr(_) => LooseString(specs, text, run, m, pos, v, after);
    case _ => LooseToken(specs, text, run, m, pos, v, after);
  }

  // ----- Keys -----

  /** From before the key to where the value is awaited. */
  lemma LooseKey(specs: seq<Spec>, text: string, run: Runner, m: Machine, pos: nat, before: string, key: string,
                 gap: string, k: nat, q: nat)
    requires Executes(specs, text, run) && m.st.AwaitAttr? && PlainKey(key) && k == FindAttr(specs, key, 0) < |specs|
    requires White(before) && Gap(gap) && q == pos + |before| && At(text, pos, before) && At(text, q, KeyPart(key))
    requires At(text, q + |KeyPart(key)|, gap)
    ensures run(m, pos) == run(Awaiting(specs, m, k), q + |KeyPart(key)| + |gap|)
  {
    WhiteRun(specs, text, run, m, pos, before);
    KeyQuoted(specs, text, run, m, q, key);
    GapRun(specs, text, run, Awaiting(specs, m, k), q + |KeyPart(key)|, gap);
  }

  lemma WhiteRun(specs: seq<Spec>, text: string, run: Runner, m: Machine, pos: nat, s: string)
    requires Executes(specs, text, run) && (m.st.Init? || m.st.AwaitAttr?) && White(s) && At(text, pos, s)
    ensures run(m, pos) == run(m, pos + |s|)
  {
    SkipRun(specs, text, run, m, pos, s);
  }

  lemma GapRun(specs: seq<Spec>, text: string, run: Runner, m: Machine, pos: nat, s: string)
    requires Executes(specs, text, run) && m.st.AwaitValue? && m.cursor < |specs| && Gap(s) && At(text, pos, s)
    ensures run(m, pos) == run(m, pos + |s|)
  {
    SkipRun(specs, text, run, m, pos, s);
  }

  lemma KeyQuoted(specs: seq<Spec>, text: string, run: Runner, m: Machine, pos: nat, key: string)
    requires Executes(specs, text, run) && m.st.AwaitAttr? && PlainKey(key) && FindAttr(specs, key, 0) < |specs|
    requires At(text, pos, KeyPart(key))
    ensures run(m, pos) == run(Awaiting(specs, m, FindAttr(specs, key, 0)), pos + |KeyPart(key)|)
  {
    KeyRead(specs, text, run, m, pos, key);
    var n := m.(st := InAttr, attr := key);
    var k := FindAttr(specs, key, 0);
    KeyQuote(specs, text, run, n, pos + 1 + |key|);
    assert Awaiting(specs, n, k) == Awaiting(specs, m, k);
  }

  /** A key up to its closing quote. */
  lemma KeyRead(specs: seq<Spec>, text: string, run: Runner, m: Machine, pos: nat, key: string)
    requires Executes(specs, text, run) && m.st.AwaitAttr? && PlainKey(key) && At(text, pos, KeyPart(key))
    ensures run(m, pos) == run(m.(st := InAttr, attr := key), pos + 1 + |key|)
    ensures pos + 1 + |key| < |text| && text[pos + 1 + |key|] == '"'
  {
    assert KeyPart(key) == ['"'] + (key + ['"']);
    AtSplit(text, pos, ['"'], key + ['"']);
    AtChar(text, pos, ['"']);
    AtSplit(text, pos + 1, key, ['"']);
    AtChar(text, pos + 1 + |key|, ['"']);
    KeyBegin(specs, text, run, m, pos);
    var m1 := m.(st := InAttr, attr := "");
    KeyRun(specs, text, run, m1, pos + 1, key);
    assert m1.attr + key == key;
  }

  // ----- Entries -----

  /** How often an item's value is stored. */
  function Times(specs: seq<Spec>, it: Item): nat
    requires FindAttr(specs, it.entry.key, 0) < |specs|
  {
    Early(specs[FindAttr(specs, it.entry.key, 0)].kind, it.after) + 1
  }

  ghost predicate ItemsOk(specs: seq<Spec>, items: seq<Item>) {
    forall i :: 0 <= i < |items| ==> ItemOk(specs, items[i])
  }

  /** All stores of the first `n` items, in order. */
  ghost function LooseWrites(specs: seq<Spec>, items: seq<Item>, n: nat): Store
    requires ItemsOk(specs, items) && n <= |items|
  {
    if n == 0 then []
    else LooseWrites(specs, items, n - 1) + Rep(WriteOf(specs, items[n - 1].entry), Times(specs, items[n - 1]))
  }

  /** Where the parts of an item stand. */
  ghost predicate ItemAt(text: string, it: Item, pos: nat, q: nat, r: nat, end: nat)
    requires it.entry.value.Arr? ==> |it.pads| == |it.entry.value.elems|
  {
    var v := LooseValue(it.entry.value, it.pads);
    && q == pos + |it.before| && r == q + |KeyPart(it.entry.key)| + |it.gap| && end == r + |v| + |it.after|
    && At(text, pos, it.before) && At(text, q, KeyPart(it.entry.key)) && At(text, q + |KeyPart(it.entry.key)|, it.gap)
    && At(text, r, v) && At(text, r + |v|, it.after)
  }

  lemma ItemPieces(text: string, pos: nat, it: Item) returns (q: nat, r: nat, end: nat)
    requires (it.entry.value.Arr? ==> |it.pads| == |it.entry.value.elems|) && At(text, pos, ItemText(it))
    ensures ItemAt(text, it, pos, q, r, end) && end == pos + |ItemText(it)|
  {
    var v := LooseValue(it.entry.value, it.pads);
    q, r, end := FivePieces(text, pos, it.before, KeyPart(it.entry.key), it.gap, v, it.after);
  }

  lemma FivePieces(text: string, pos: nat, a: string, b: string, c: string, d: string, e: string)
    returns (q: nat, r: nat, end: nat)
    requires At(text, pos, a + b + c + d + e)
    ensures q == pos + |a| && r == q + |b| + |c| && end == r + |d| + |e| == pos + |a + b + c + d + e|
    ensures At(text, pos, a) && At(text, q, b) && At(text, q + |b|, c) && At(text, r, d) && At(text, r + |d|, e)
  {
    AtSplit(text, pos, a + b + c + d, e);
    AtSplit(text, pos, a + b + c, d);
    AtSplit(text, pos, a + b, c);
    AtSplit(text, pos, a, b);
    q := pos + |a|;
    r := q + |b| + |c|;
    end := r + |d| + |e|;
  }

  /** The reader before the character that follows an item. */
  ghost function Past(specs: seq<Spec>, m: Machine, it: Item): Machine
    requires ItemOk(specs, it)
  {
    Trailing(specs, Awaiting(specs, m, FindAttr(specs, it.entry.key, 0)), it.entry.value, it.after)
  }

  lemma ItemValue(specs: seq<Spec>, text: string, run: Runner, m: Machine, q: nat, it: Item, end: nat)
    requires Executes(specs, text, run) && DistinctNames(specs) && ItemOk(specs, it)
    requires var v := LooseValue(it.entry.value, it.pads);
             At(text, q, v) && At(text, q + |v|, it.after) && end == q + |v| + |it.after|
    requires it.entry.value.Str? || it.entry.value.Arr? || it.after != "" || (end < |text| && text[end] in {',', '}'})
    ensures run(Awaiting(specs, m, FindAttr(specs, it.entry.key, 0)), q) == run(Past(specs, m, it), end)
  {
    AwaitingWaits(specs, m, it);
    var a := Awaiting(specs, m, FindAttr(specs, it.entry.key, 0));
    LooseValueRun(specs, text, run, a, q, it.entry.value, it.pads, it.after);
  }

  lemma AwaitingWaits(specs: seq<Spec>, m: Machine, it: Item)
    requires DistinctNames(specs) && ItemOk(specs, it)
    ensures Waits(specs, Awaiting(specs, m, FindAttr(specs, it.entry.key, 0)), it.entry.value)
  {}

  /** An item as far as the character after it. */
  lemma ItemRun(specs: seq<Spec>, text: string, run: Runner, m: Machine, pos: nat, it: Item)
    requires Executes(specs, text, run) && DistinctNames(specs) && m.st.AwaitAttr? && ItemOk(specs, it)
    requires At(text, pos, ItemText(it))
    requires it.entry.value.Str? || it.entry.value.Arr? || it.after != ""
             || (var e := pos + |ItemText(it)|; e < |text| && text[e] in {',', '}'})
    ensures run(m, pos) == run(Past(specs, m, it), pos + |ItemText(it)|)
  {
    var q, r, end := ItemPieces(text, pos, it);
    ItemRunAt(specs, text, run, m, it, pos, q, r, end);
  }

  lemma ItemRunAt(specs: seq<Spec>, text: string, run: Runner, m: Machine, it: Item, pos: nat, q: nat, r: nat, end: nat)
    requires Executes(specs, text, run) && DistinctNames(specs) && m.st.AwaitAttr? && ItemOk(specs, it)
    requires ItemAt(text, it, pos, q, r, end)
    requires it.entry.value.Str? || it.entry.value.Arr? || it.after != "" || (end < |text| && text[end] in {',', '}'})
    ensures run(m, pos) == run(Past(specs, m, it), end)
  {
    LooseKey(specs, text, run, m, pos, it.before, it.entry.key, it.gap, FindAttr(specs, it.entry.key, 0), q);
    ItemValue(specs, text, run, m, r, it, end);
  }

  /** The machine after an item and the comma behind it. */
  lemma ItemEnds(specs: seq<Spec>, text: string, m: Machine, pos: nat, it: Item) returns (n: Machine)
    requires DistinctNames(specs) && m.st.AwaitAttr? && ItemOk(specs, it) && pos < |text|
    ensures n.store == m.store + Rep(WriteOf(specs, it.entry), Times(specs, it))
    ensures Ready(specs, Past(specs, m, it))
    ensures Step(specs, Past(specs, m, it), text[pos], text, pos + 1) == AfterValue(n, text[pos], pos + 1)
  {
    var k := FindAttr(specs, it.entry.key, 0);
    var (w, e) := (WriteOf(specs, it.entry), Early(specs[k].kind, it.after));
    var a := Awaiting(specs, m, k).(store := m.store + Rep(w, e));
    n := EndStep(specs, text, a, pos, it.entry.value);
    assert m.store + Rep(w, e) + [w] == m.store + Rep(w, e + 1);
  }

  /** What the character after an item leads to. */
  lemma ItemThen(specs: seq<Spec>, text: string, run: Runner, m: Machine, pos: nat, it: Item, end: nat)
    returns (n: Machine)
    requires Executes(specs, text, run) && DistinctNames(specs) && m.st.AwaitAttr? && ItemOk(specs, it)
    requires At(text, pos, ItemText(it)) && end == pos + |ItemText(it)| && end < |text|
    requires text[end] != NUL && !IsSpace(text[end])
    requires it.entry.value.Str? || it.entry.value.Arr? || it.after != "" || text[end] in {',', '}'}
    ensures n.store == m.store + Rep(WriteOf(specs, it.entry), Times(specs, it)) && n.st.AwaitAttr?
    ensures run(m, pos) == if text[end] == ',' then run(n, end + 1)
                           else Final(if text[end] == '}' then OK else ERR_BADTRAIL, n.store)
  {
    ItemRun(specs, text, run, m, pos, it);
    n := ItemEnds(specs, text, m, end, it);
    RunStep(specs, text, run, Past(specs, m, it), end, AfterValue(n, text[end], end + 1));
    n := n.(st := AwaitAttr);
  }

  // ----- Objects -----

  /** A piece and the character behind it. */
  lemma PieceThen(text: string, pos: nat, x: string, c: char, tail: string)
    requires At(text, pos, x + [c] + tail)
    ensures At(text, pos, x) && pos + |x| < |text| && text[pos + |x|] == c && At(text, pos + |x| + 1, tail)
  {
    AtSplit(text, pos, x + [c], tail);
    AtSplit(text, pos, x, [c]);
    AtChar(text, pos + |x|, [c]);
  }

  lemma WholeText(text: string, a: string, b: string)
    requires text == a + b
    ensures At(text, 0, a) && At(text, |a|, b)
  {
    assert At(text, 0, a + b);
    AtSplit(text, 0, a, b);
  }

  /** The first `n` of some pieces, one behind the other. */
  ghost function Cat(pieces: seq<string>, n: nat): string
    requires n <= |pieces|
  {
    if n == 0 then "" else Cat(pieces, n - 1) + pieces[n - 1]
  }

  /** The items, each with a comma behind it. */
  ghost function Pieces(specs: seq<Spec>, items: seq<Item>): (r: seq<string>)
    requires ItemsOk(specs, items)
    ensures |r| == |items| && forall i :: 0 <= i < |items| ==> r[i] == ItemText(items[i]) + [',']
  {
    seq(|items|, i requires 0 <= i < |items| => ItemText(items[i]) + [','])
  }

  /** The first `n` items, each with a comma behind it. */
  ghost function PrefixText(specs: seq<Spec>, items: seq<Item>, n: nat): string
    requires ItemsOk(specs, items) && n <= |items|
  {
    Cat(Pieces(specs, items), n)
  }

  /** Where pieces begin, and where the last of them ends. */
  ghost predicate Stand(text: string, pieces: seq<string>, ends: seq<nat>) {
    && ends != [] && |ends| <= |pieces| + 1
    && forall i :: 0 <= i < |ends| - 1 ==> Stands(text, pieces[i], ends[i], ends[i + 1])
  }

  ghost predicate Stands(text: string, piece: string, pos: nat, end: nat) {
    At(text, pos, piece) && end == pos + |piece|
  }

  lemma {:induction false} CatStands(text: string, pos: nat, pieces: seq<string>, n: nat) returns (ends: seq<nat>)
    requires n <= |pieces| && At(text, pos, Cat(pieces, n))
    ensures Stand(text, pieces, ends) && |ends| == n + 1 && ends[0] == pos && ends[n] == pos + |Cat(pieces, n)|
    decreases n
  {
    if n == 0 {
      ends := [pos];
    } else {
      AtSplit(text, pos, Cat(pieces, n - 1), pieces[n - 1]);
      var front := CatStands(text, pos, pieces, n - 1);
      StandMore(text, pieces, front, front[n - 1] + |pieces[n - 1]|);
      ends := front + [front[n - 1] + |pieces[n - 1]|];
    }
  }

  lemma StandMore(text: string, pieces: seq<string>, ends: seq<nat>, end: nat)
    requires Stand(text, pieces, ends) && |ends| <= |pieces|
    requires Stands(text, pieces[|ends| - 1], ends[|ends| - 1], end)
    ensures Stand(text, pieces, ends + [end])
  {
    var all := ends + [end];
    forall i | 0 <= i < |all| - 1 ensures Stands(text, pieces[i], all[i], all[i + 1]) {
      if i < |ends| - 1 { assert Stands(text, pieces[i], ends[i], ends[i + 1]); }
    }
  }

  /** Where the reader stands after `n` items with commas. */
  ghost predicate Ahead(specs: seq<Spec>, items: seq<Item>, n: nat, m: Machine)
    requires ItemsOk(specs, items) && n <= |items|
  {
    && m.st.AwaitAttr? && (n == 0 ==> m.maxlen == 0)
    && m.store == Defaults(specs, 0) + LooseWrites(specs, items, n)
  }

  lemma {:induction false} PrefixRun(specs: seq<Spec>, text: string, run: Runner, m: Machine, items: seq<Item>,
                                     ends: seq<nat>, n: nat) returns (r: Machine)
    requires Executes(specs, text, run) && DistinctNames(specs) && ItemsOk(specs, items)
    requires Ahead(specs, items, 0, m) && Stand(text, Pieces(specs, items), ends) && n < |ends|
    ensures run(m, ends[0]) == run(r, ends[n]) && Ahead(specs, items, n, r)
    decreases n
  {
    if n == 0 {
      r := m;
    } else {
      var f := PrefixRun(specs, text, run, m, items, ends, n - 1);
      assert Stands(text, Pieces(specs, items)[n - 1], ends[n - 1], ends[n]);
      r := NextItem(specs, text, run, items, n, f, ends[n - 1], ends[n]);
    }
  }

  lemma NextItem(specs: seq<Spec>, text: string, run: Runner, items: seq<Item>, n: nat, f: Machine, pos: nat, end: nat)
    returns (r: Machine)
    requires Executes(specs, text, run) && DistinctNames(specs) && ItemsOk(specs, items) && 0 < n <= |items|
    requires Ahead(specs, items, n - 1, f) && Stands(text, Pieces(specs, items)[n - 1], pos, end)
    ensures run(f, pos) == run(r, end) && Ahead(specs, items, n, r)
  {
    r := CommaItem(specs, text, run, f, pos, items[n - 1], end);
    AheadMore(specs, items, n, f, r);
  }

  /** One more item. */
  lemma AheadMore(specs: seq<Spec>, items: seq<Item>, n: nat, f: Machine, r: Machine)
    requires ItemsOk(specs, items) && 0 < n <= |items| && Ahead(specs, items, n - 1, f) && r.st.AwaitAttr?
    requires var it := items[n - 1];
             r.store == f.store + Rep(WriteOf(specs, it.entry), Times(specs, it))
    ensures Ahead(specs, items, n, r)
  {}

  lemma CommaItem(specs: seq<Spec>, text: string, run: Runner, m: Machine, pos: nat, it: Item, end: nat)
    returns (n: Machine)
    requires Executes(specs, text, run) && DistinctNames(specs) && ItemOk(specs, it) && m.st.AwaitAttr?
    requires At(text, pos, ItemText(it) + [',']) && end == pos + |ItemText(it) + [',']|
    ensures run(m, pos) == run(n, end) && n.st.AwaitAttr?
    ensures n.store == m.store + Rep(WriteOf(specs, it.entry), Times(specs, it))
  {
    assert ItemText(it) + [','] + [] == ItemText(it) + [','];
    PieceThen(text, pos, ItemText(it), ',', []);
    n := ItemThen(specs, text, run, m, pos, it, pos + |ItemText(it)|);
  }

  /** The beginning of an object with `n` items, up to where another key may stand. */
  ghost function Opening(specs: seq<Spec>, lead: string, items: seq<Item>, n: nat): string
    requires ItemsOk(specs, items) && n <= |items|
  {
    lead + ['{'] + PrefixText(specs, items, n)
  }

  lemma Open(specs: seq<Spec>, lead: string, items: seq<Item>, n: nat, rest: string, text: string, run: Runner)
    returns (m: Machine, pos: nat)
    requires DistinctNames(specs) && White(lead) && ItemsOk(specs, items) && n <= |items|
    requires text == Opening(specs, lead, items, n) + rest && run == RunnerOf(specs, text)
    ensures Executes(specs, text, run) && ReadObject(specs, text) == run(m, pos) && Ahead(specs, items, n, m)
    ensures pos == |Opening(specs, lead, items, n)| && At(text, pos, rest) && pos + |rest| == |text|
  {
    RunnerExecutes(specs, text);
    var q := OpenPieces(specs, lead, items, n, rest, text);
    var o := Opened(specs, lead, items, text, run);
    var ends := CatStands(text, |lead| + 1, Pieces(specs, items), n);
    m := PrefixRun(specs, text, run, o, items, ends, n);
    pos := ends[n];
  }

  lemma OpenPieces(specs: seq<Spec>, lead: string, items: seq<Item>, n: nat, rest: string, text: string)
    returns (pos: nat)
    requires ItemsOk(specs, items) && n <= |items| && text == Opening(specs, lead, items, n) + rest
    ensures pos == |Opening(specs, lead, items, n)| == |lead| + 1 + |PrefixText(specs, items, n)|
    ensures At(text, pos, rest) && pos + |rest| == |text| && At(text, |lead| + 1, PrefixText(specs, items, n))
    ensures At(text, 0, lead) && |lead| < |text| && text[|lead|] == '{'
  {
    pos := |Opening(specs, lead, items, n)|;
    WholeText(text, Opening(specs, lead, items, n), rest);
    PieceThen(text, 0, lead, '{', PrefixText(specs, items, n));
  }

  lemma Opened(specs: seq<Spec>, lead: string, items: seq<Item>, text: string, run: Runner) returns (m: Machine)
    requires Executes(specs, text, run) && run == RunnerOf(specs, text) && White(lead) && ItemsOk(specs, items)
    requires At(text, 0, lead) && |lead| < |text| && text[|lead|] == '{'
    ensures ReadObject(specs, text) == run(m, |lead| + 1) && Ahead(specs, items, 0, m)
  {
    var s := Start(specs);
    WhiteRun(specs, text, run, s, 0, lead);
    m := s.(st := AwaitAttr);
    RunStep(specs, text, run, s, |lead|, Continue(m, |lead| + 1));
    assert m.store + [] == m.store;
  }

  /** A whole object of `n + 1` items with something behind it. */
  ghost predicate IsObject(specs: seq<Spec>, lead: string, items: seq<Item>, n: nat, tail: string, text: string)
    requires ItemsOk(specs, items) && n + 1 == |items|
  {
    text == Opening(specs, lead, items, n) + (ItemText(items[n]) + ['}'] + tail)
  }

  /**
   Any white space between the parts of an object, and any text behind it: the reader returns 0 and
   has stored every value in order, some of them several times in a row.
   */
  lemma LooseRead(specs: seq<Spec>, lead: string, items: seq<Item>, n: nat, tail: string, text: string)
    requires DistinctNames(specs) && White(lead) && ItemsOk(specs, items) && n + 1 == |items|
    requires IsObject(specs, lead, items, n, tail, text)
    ensures ReadObject(specs, text) == Final(OK, Defaults(specs, 0) + LooseWrites(specs, items, n + 1))
  {
    var run := RunnerOf(specs, text);
    var m, pos := Open(specs, lead, items, n, ItemText(items[n]) + ['}'] + tail, text, run);
    LastItem(specs, text, run, items, n, m, pos, tail);
  }

  lemma LastItem(specs: seq<Spec>, text: string, run: Runner, items: seq<Item>, n: nat, m: Machine, pos: nat,
                 tail: string)
    requires Executes(specs, text, run) && DistinctNames(specs) && ItemsOk(specs, items) && n < |items|
    requires Ahead(specs, items, n, m) && At(text, pos, ItemText(items[n]) + ['}'] + tail)
    ensures run(m, pos) == Final(OK, Defaults(specs, 0) + LooseWrites(specs, items, n + 1))
  {
    PieceThen(text, pos, ItemText(items[n]), '}', tail);
    var r := ItemThen(specs, text, run, m, pos, items[n], pos + |ItemText(items[n])|);
    StoresAdd(specs, items, n, m, r);
  }

  lemma StoresAdd(specs: seq<Spec>, items: seq<Item>, n: nat, m: Machine, r: Machine)
    requires ItemsOk(specs, items) && n < |items| && Ahead(specs, items, n, m)
    requires r.store == m.store + Rep(WriteOf(specs, items[n].entry), Times(specs, items[n]))
    ensures r.store == Defaults(specs, 0) + LooseWrites(specs, items, n + 1)
  {}

  /** Repeated stores leave in memory what single ones do. */
  lemma {:induction false} LatestLoose(specs: seq<Spec>, items: seq<Item>, entries: seq<Entry>, n: nat, k: nat,
                                       old_: Stored)
    requires ItemsOk(specs, items) && |entries| == |items| && n <= |items|
    requires forall i :: 0 <= i < |items| ==> entries[i] == items[i].entry
    ensures Latest(LooseWrites(specs, items, n), k, old_) == Latest(Writes(specs, entries[..n]), k, old_)
    decreases n
  {
    if n == 0 {
    } else {
      var w := WriteOf(specs, items[n - 1].entry);
      LatestLoose(specs, items, entries, n - 1, k, old_);
      WritesLast(specs, entries[..n]);
      assert entries[..n][..n - 1] == entries[..n - 1];
      LatestMore(LooseWrites(specs, items, n - 1), Writes(specs, entries[..n - 1]), w, Times(specs, items[n - 1]), k,
                 old_);
    }
  }

  lemma LatestMore(a: Store, b: Store, w: Write, n: nat, k: nat, old_: Stored)
    requires Latest(a, k, old_) == Latest(b, k, old_) && n > 0
    ensures Latest(a + Rep(w, n), k, old_) == Latest(b + [w], k, old_)
  {
    LatestAppend(a, Rep(w, n), k, old_);
    LatestAppend(b, [w], k, old_);
    LatestRep(w, n, k, Latest(a, k, old_));
    LatestRep(w, 1, k, Latest(b, k, old_));
    assert Rep(w, 1) == [w];
  }

  lemma {:induction false} LatestRep(w: Write, n: nat, k: nat, old_: Stored)
    requires n > 0
    ensures Latest(Rep(w, n), k, old_) == if w.attr == k then w.value else old_
    decreases n
  {
    assert Rep(w, n)[..n - 1] == Rep(w, n - 1);
    if n > 1 { LatestRep(w, n - 1, k, old_); }
  }

  lemma {:induction false} WritesLast(specs: seq<Spec>, entries: seq<Entry>)
    requires entries != []
    ensures Writes(specs, entries) == Writes(specs, entries[..|entries| - 1]) + [WriteOf(specs, entries[|entries| - 1])]
    decreases |entries|
  {
    var last := |entries| - 1;
    if last == 0 {
      assert entries[1..] == [] && entries[..0] == [];
    } else {
      WritesLast(specs, entries[1..]);
      assert entries[1..][..last - 1] == entries[..last][1..];
    }
  }

  /** With any white space every target holds what it would hold after the encoder's own text. */
  lemma LooseValues(specs: seq<Spec>, lead: string, items: seq<Item>, n: nat, tail: string, text: string,
                    entries: seq<Entry>, k: nat, old_: Stored)
    requires DistinctNames(specs) && White(lead) && ItemsOk(specs, items) && n + 1 == |items| == |entries|
    requires IsObject(specs, lead, items, n, tail, text)
    requires forall i :: 0 <= i < |items| ==> entries[i] == items[i].entry
    ensures Latest(ReadObject(specs, text).store, k, old_)
         == Latest(ReadObject(specs, Encode(Obj(entries), false).0).store, k, old_)
  {
    LooseRead(specs, lead, items, n, tail, text);
    forall i | 0 <= i < |entries| ensures FitsTemplate(specs, entries[i]) {
      assert ItemOk(specs, items[i]);
    }
    RoundTrip(specs, entries);
    SameMemory(specs, Defaults(specs, 0), items, entries, k, old_);
  }

  lemma SameMemory(specs: seq<Spec>, first: Store, items: seq<Item>, entries: seq<Entry>, k: nat, old_: Stored)
    requires ItemsOk(specs, items) && |entries| == |items|
    requires forall i :: 0 <= i < |items| ==> entries[i] == items[i].entry
    requires forall i :: 0 <= i < |entries| ==> FitsTemplate(specs, entries[i])
    ensures Latest(first + LooseWrites(specs, items, |items|), k, old_)
         == Latest(first + Writes(specs, entries), k, old_)
  {
    LatestAppend(first, LooseWrites(specs, items, |items|), k, old_);
    LatestAppend(first, Writes(specs, entries), k, old_);
    LatestLoose(specs, items, entries, |items|, k, Latest(first, k, old_));
    assert entries[..|items|] == entries;
  }
}
