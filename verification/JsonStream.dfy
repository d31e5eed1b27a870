/** The streaming interface of the JSON encoder: well-nested sequences of calls. */
module JsonStream {
  import opened JsonEncode

  // ----- The encoder as the firmware holds it -----

  /** Text written so far and the comma flag. */
  datatype State = State(out: string, comma: bool)

  datatype Call =
    | ObjectStart
    | ObjectKey(key: string)
    | ObjectEntry(key: string, value: Value)
    | ObjectFinish
    | ArrayStart
    | ArrayValue(value: Value)
    | ArrayFinish

  function Apply(st: State, call: Call): State {
    var c := st.out + CommaIf(st.comma);
    match call
    case ObjectStart => State(c + "{", false)
    case ObjectKey(key) => State(c + KeyText(key), false)
    case ObjectEntry(key, value) => State(c + KeyText(key) + Encode(value, false).0, true)
    case ObjectFinish => State(st.out + "}", true)
    case ArrayStart => State(st.out + "[", false)
    case ArrayValue(value) => State(c + Encode(value, false).0, true)
    case ArrayFinish => State(st.out + "]", true)
  }

  function RunCalls(st: State, calls: seq<Call>): State
    decreases |calls|
  {
    if calls == [] then st else RunCalls(Apply(st, calls[0]), calls[1..])
  }

  class Encoder {
    var out: string
    var comma: bool

    ghost function St(): State reads this { State(out, comma) }

    constructor ()
      ensures St() == State("", false)
    {
      out, comma := "", false;
    }

    method Write(data: string)
      modifies this`out
      ensures out == old(out) + data
    {
      out := out + data;
    }

    method WriteComma()
      modifies this
      ensures out == old(out) + CommaIf(old(comma)) && !comma
    {
      if comma {
        Write(",");
        comma := false;
      }
    }

    /** `json_encode_value`. */
    method EncodeValue(v: Value)
      modifies this
      ensures St() == State(old(out) + Encode(v, old(comma)).0, Encode(v, old(comma)).1)
      decreases v, 1
    {
      match v
      case Str(s) => WriteString(s);
      case Arr(elems) => WriteArray(elems);
      case Obj(entries) => WriteObject(entries);
      case _ => Write(Scalar(v));
    }

    method WriteArray(elems: seq<Value>)
      modifies this
      ensures St() == State(old(out) + Encode(Arr(elems), old(comma)).0, Encode(Arr(elems), old(comma)).1)
      decreases elems, 0
    {
      ghost var text := EncodeElems(elems, comma);
      Write("[");
      var i := 0;
      assert elems[0..] == elems;
      while i < |elems|
        invariant 0 <= i <= |elems|
        invariant out + EncodeElems(elems[i..], comma).0 == old(out) + "[" + text.0
        invariant EncodeElems(elems[i..], comma).1 == text.1
      {
        ghost var rest := elems[i..];
        ghost var before, flag := out, comma;
        assert rest[0] == elems[i] && rest[1..] == elems[i + 1..];
        EncodeValue(elems[i]);
        if i != |elems| - 1 {
          Write(",");
        }
        ElemStep(before, rest, flag);
        i := i + 1;
      }
      assert elems[i..] == [];
      assert out == old(out) + "[" + text.0;
      Write("]");
      Bracketed(old(out), "[", text.0, "]");
    }

    method WriteObject(entries: seq<Entry>)
      modifies this
      ensures St() == State(old(out) + Encode(Obj(entries), old(comma)).0, Encode(Obj(entries), old(comma)).1)
      decreases entries, 0
    {
      ghost var text := EncodeEntries(entries, comma);
      Write("{");
      var i := 0;
      assert entries[0..] == entries;
      while i < |entries|
        invariant 0 <= i <= |entries|
        invariant out + EncodeEntries(entries[i..], comma).0 == old(out) + "{" + text.0
        invariant EncodeEntries(entries[i..], comma).1 == text.1
      {
        ghost var rest := entries[i..];
        ghost var before, flag := out, comma;
        assert rest[0] == entries[i] && rest[1..] == entries[i + 1..];
        WriteEntry(entries[i].key, entries[i].value);
        EntryStep(before, rest, flag);
        i := i + 1;
      }
      assert entries[i..] == [];
      assert out == old(out) + "{" + text.0;
      Write("}");
      Bracketed(old(out), "{", text.0, "}");
    }

    method WriteString(s: string)
      modifies this`out
      ensures out == old(out) + Quoted(s)
    {
      Write("\"");
      var i := 0;
      assert s[0..] == s;
      while i < |s|
        invariant 0 <= i <= |s|
        invariant out + Escape(s[i..]) == old(out) + "\"" + Escape(s)
      {
        ghost var rest := s[i..];
        assert rest[0] == s[i] && rest[1..] == s[i + 1..];
        EscapeStep(out, rest);
        Write(EscapeChar(s[i]));
        i := i + 1;
      }
      assert s[i..] == [] && Escape(s[i..]) == "";
      assert out == old(out) + "\"" + Escape(s);
      Write("\"");
      Bracketed(old(out), "\"", Escape(s), "\"");
    }

    /** `json_encode_object_entry`. */
    method WriteEntry(key: string, value: Value)
      modifies this
      ensures St() == Apply(old(St()), ObjectEntry(key, value))
      decreases value, 2
    {
      WriteComma();
      Write("\"");
      Write(key);
      Write("\": ");
      assert out == old(out) + CommaIf(old(comma)) + KeyText(key);
      EncodeValue(value);
      comma := true;
    }

    method StartObject()
      modifies this
      ensures St() == Apply(old(St()), ObjectStart)
    {
      WriteComma();
      Write("{");
      comma := false;
    }

    /** `json_encode_object_key`, also used as `json_encode_array_name`. */
    method WriteKey(key: string)
      modifies this
      ensures St() == Apply(old(St()), ObjectKey(key))
    {
      WriteComma();
      Write("\"");
      Write(key);
      Write("\": ");
      assert out == old(out) + CommaIf(old(comma)) + KeyText(key);
    }

    method FinishObject()
      modifies this
      ensures St() == Apply(old(St()), ObjectFinish)
    {
      Write("}");
      comma := true;
    }

    method StartArray()
      modifies this
      ensures St() == Apply(old(St()), ArrayStart)
    {
      Write("[");
      comma := false;
    }

    method WriteElement(value: Value)
      modifies this
      ensures St() == Apply(old(St()), ArrayValue(value))
    {
      WriteComma();
      EncodeValue(value);
      comma := true;
    }

    method FinishArray()
      modifies this
      ensures St() == Apply(old(St()), ArrayFinish)
    {
      comma := true;
      Write("]");
    }
  }

  lemma Bracketed(before: string, open: string, text: string, close: string)
    ensures before + open + text + close == before + (open + text + close)
  {}

  lemma EscapeStep(before: string, rest: string)
    requires rest != []
    ensures before + Escape(rest) == before + EscapeChar(rest[0]) + Escape(rest[1..])
  {
    var (c, t) := (EscapeChar(rest[0]), Escape(rest[1..]));
    assert before + (c + t) == before + c + t;
  }

  lemma ElemStep(before: string, rest: seq<Value>, flag: bool)
    requires rest != []
    ensures
      var (first, f) := Encode(rest[0], flag);
      && before + first + CommaIf(|rest| > 1) + EncodeElems(rest[1..], f).0 == before + EncodeElems(rest, flag).0
      && EncodeElems(rest[1..], f).1 == EncodeElems(rest, flag).1
  {
    var (first, f) := Encode(rest[0], flag);
    var tail := EncodeElems(rest[1..], f).0;
    assert EncodeElems(rest, flag).0 == first + CommaIf(|rest| > 1) + tail;
    assert before + (first + CommaIf(|rest| > 1) + tail) == before + first + CommaIf(|rest| > 1) + tail;
  }

  lemma EntryStep(before: string, rest: seq<Entry>, flag: bool)
    requires rest != []
    ensures
      var st := Apply(State(before, flag), ObjectEntry(rest[0].key, rest[0].value));
      && st.out + EncodeEntries(rest[1..], true).0 == before + EncodeEntries(rest, flag).0
      && EncodeEntries(rest[1..], true).1 == EncodeEntries(rest, flag).1
  {
    EntryText(rest, flag);
    Rejoin(before, CommaIf(flag), KeyText(rest[0].key), Encode(rest[0].value, false).0,
           EncodeEntries(rest[1..], true).0);
  }

  lemma EntryText(rest: seq<Entry>, flag: bool)
    requires rest != []
    ensures EncodeEntries(rest, flag).0
         == CommaIf(flag) + KeyText(rest[0].key) + Encode(rest[0].value, false).0 + EncodeEntries(rest[1..], true).0
    ensures EncodeEntries(rest, flag).1 == EncodeEntries(rest[1..], true).1
  {}

  lemma Rejoin(before: string, c: string, k: string, v: string, tail: string)
    ensures before + c + k + v + tail == before + (c + k + v + tail)
  {}

  // ----- Well-nested call sequences -----

  datatype Doc = DObj(items: seq<Item>) | DArr(elems: seq<Elem>)
  datatype Item = Plain(key: string, value: Value) | Nested(key: string, doc: Doc)
  datatype Elem = Leaf(value: Value) | Sub(doc: Doc)

  /** The calls that stream a document. */
  function Calls(d: Doc): seq<Call>
    decreases d, 1
  {
    match d
    case DObj(items) => [ObjectStart] + ItemCalls(items) + [ObjectFinish]
    case DArr(elems) => [ArrayStart] + ElemCalls(elems) + [ArrayFinish]
  }

  function ItemCalls(items: seq<Item>): seq<Call>
    decreases items, 0
  {
    if items == [] then []
    else
      (match items[0]
       case Plain(k, v) => [ObjectEntry(k, v)]
       case Nested(k, d) => [ObjectKey(k)] + Calls(d)) + ItemCalls(items[1..])
  }

  function ElemCalls(elems: seq<Elem>): seq<Call>
    decreases elems, 0
  {
    if elems == [] then []
    else
      var e := elems[0];
      (if e.Leaf? then [ArrayValue(e.value)] else assert e.doc < e; Calls(e.doc)) + ElemCalls(elems[1..])
  }

  /** The text a document should have: one comma before every sibling but the first. */
  function PrintDoc(d: Doc): string
    decreases d, 1
  {
    match d
    case DObj(items) => "{" + PrintItems(items, false) + "}"
    case DArr(elems) => "[" + PrintArray(elems, false) + "]"
  }

  function PrintItems(items: seq<Item>, more: bool): string
    decreases items, 0
  {
    if items == [] then ""
    else
      var text := match items[0]
        case Plain(_, v) => Print(v)
        case Nested(_, d) => PrintDoc(d);
      CommaIf(more) + KeyText(items[0].key) + text + PrintItems(items[1..], true)
  }

  function PrintArray(elems: seq<Elem>, more: bool): string
    decreases elems, 0
  {
    if elems == [] then ""
    else
      var e := elems[0];
      var text := if e.Leaf? then Print(e.value) else assert e.doc < e; PrintDoc(e.doc);
      CommaIf(more) + text + PrintArray(elems[1..], true)
  }

  /** The text that streaming produces. */
  function StreamDoc(d: Doc, comma: bool): string
    decreases d, 1
  {
    match d
    case DObj(items) => CommaIf(comma) + "{" + StreamItems(items, false) + "}"
    case DArr(elems) => "[" + StreamElems(elems, false) + "]"
  }

  function StreamItems(items: seq<Item>, comma: bool): string
    decreases items, 0
  {
    if items == [] then ""
    else
      var text := match items[0]
        case Plain(_, v) => Encode(v, false).0
        case Nested(_, d) => StreamDoc(d, false);
      CommaIf(comma) + KeyText(items[0].key) + text + StreamItems(items[1..], true)
  }

  function StreamElems(elems: seq<Elem>, comma: bool): string
    decreases elems, 0
  {
    if elems == [] then ""
    else
      var e := elems[0];
      var text :=
        if e.Leaf? then CommaIf(comma) + Encode(e.value, false).0
        else assert e.doc < e; StreamDoc(e.doc, comma);
      text + StreamElems(elems[1..], true)
  }

  lemma {:induction false} RunConcat(st: State, a: seq<Call>, b: seq<Call>)
    ensures RunCalls(st, a + b) == RunCalls(RunCalls(st, a), b)
    decreases |a|
  {
    if a == [] {
      assert a + b == b;
    } else {
      assert (a + b)[1..] == a[1..] + b;
      RunConcat(Apply(st, a[0]), a[1..], b);
    }
  }

  lemma RunOne(st: State, c: Call)
    ensures RunCalls(st, [c]) == Apply(st, c)
  {
    assert [c][1..] == [];
    assert RunCalls(Apply(st, c), []) == Apply(st, c);
  }

  lemma {:induction false} RunDoc(st: State, d: Doc)
    ensures RunCalls(st, Calls(d)) == State(st.out + StreamDoc(d, st.comma), true)
    decreases d, 1
  {
    match d
    case DObj(items) =>
      var s1 := Apply(st, ObjectStart);
      RunItems(s1, items);
      RunBetween(st, ObjectStart, ItemCalls(items), ObjectFinish);
      Braced(st.out, CommaIf(st.comma), StreamItems(items, false));
    case DArr(elems) =>
      var s1 := Apply(st, ArrayStart);
      RunElems(s1, elems);
      RunBetween(st, ArrayStart, ElemCalls(elems), ArrayFinish);
      Bracketed(st.out, "[", StreamElems(elems, false), "]");
  }

  lemma Braced(out: string, c: string, t: string)
    ensures out + c + "{" + t + "}" == out + (c + "{" + t + "}")
  {}

  lemma RunBetween(st: State, open: Call, mid: seq<Call>, close: Call)
    ensures RunCalls(st, [open] + mid + [close]) == Apply(RunCalls(Apply(st, open), mid), close)
  {
    RunConcat(st, [open] + mid, [close]);
    RunConcat(st, [open], mid);
    RunOne(st, open);
    RunOne(RunCalls(Apply(st, open), mid), close);
  }

  lemma {:induction false} RunItems(st: State, items: seq<Item>)
    ensures RunCalls(st, ItemCalls(items)) == State(st.out + StreamItems(items, st.comma), st.comma || items != [])
    decreases items, 0
  {
    if items == [] {
      assert st.out + "" == st.out;
    } else {
      var (h, t) := (items[0], items[1..]);
      var (o, c, k, u) := (st.out, CommaIf(st.comma), KeyText(items[0].key), StreamItems(t, true));
      match h {
        case Plain(key, v) =>
          RunOne(st, ObjectEntry(key, v));
          RunConcat(st, [ObjectEntry(key, v)], ItemCalls(t));
          RunItems(Apply(st, ObjectEntry(key, v)), t);
          Regroup(o, c, k, Encode(v, false).0, u);
        case Nested(key, d) =>
          var s1 := Apply(st, ObjectKey(key));
          RunOne(st, ObjectKey(key));
          RunConcat(st, [ObjectKey(key)], Calls(d));
          RunDoc(s1, d);
          RunConcat(st, [ObjectKey(key)] + Calls(d), ItemCalls(t));
          RunItems(RunCalls(s1, Calls(d)), t);
          Regroup(o, c, k, StreamDoc(d, false), u);
      }
    }
  }

  lemma Regroup(o: string, c: string, k: string, v: string, u: string)
    ensures o + c + k + v + u == o + (c + k + v + u)
  {}

  lemma {:induction false} RunElems(st: State, elems: seq<Elem>)
    ensures RunCalls(st, ElemCalls(elems)) == State(st.out + StreamElems(elems, st.comma), st.comma || elems != [])
    decreases elems, 0
  {
    if elems == [] {
      assert st.out + "" == st.out;
    } else {
      var (e, t) := (elems[0], elems[1..]);
      var u := StreamElems(t, true);
      if e.Leaf? {
        RunOne(st, ArrayValue(e.value));
        RunConcat(st, [ArrayValue(e.value)], ElemCalls(t));
        RunElems(Apply(st, ArrayValue(e.value)), t);
        Regroup3(st.out, CommaIf(st.comma), Encode(e.value, false).0, u);
      } else {
        assert e.doc < e;
        RunDoc(st, e.doc);
        RunConcat(st, Calls(e.doc), ElemCalls(t));
        RunElems(RunCalls(st, Calls(e.doc)), t);
        Regroup2(st.out, StreamDoc(e.doc, st.comma), u);
      }
    }
  }

  lemma Regroup3(o: string, c: string, v: string, u: string)
    ensures o + c + v + u == o + (c + v + u)
  {}

  lemma Regroup2(o: string, v: string, u: string)
    ensures o + v + u == o + (v + u)
  {}

  // ----- When streaming writes the right commas -----

  /** Every value handed to the encoder is itself written with the right commas. */
  predicate CleanLeaves(d: Doc) {
    match d
    case DObj(items) =>
      forall i :: 0 <= i < |items| ==>
        if items[i].Plain? then Clean(items[i].value) else CleanLeaves(items[i].doc)
    case DArr(elems) =>
      forall i :: 0 <= i < |elems| ==>
        if elems[i].Leaf? then Clean(elems[i].value) else assert elems[i].doc < elems[i]; CleanLeaves(elems[i].doc)
  }

  /** No array is streamed into an array after its first element. */
  predicate Neat(d: Doc) {
    match d
    case DObj(items) => forall i :: 0 <= i < |items| && items[i].Nested? ==> Neat(items[i].doc)
    case DArr(elems) =>
      forall i :: 0 <= i < |elems| && elems[i].Sub? ==>
        assert elems[i].doc < elems[i]; Neat(elems[i].doc) && (elems[i].doc.DArr? ==> i == 0)
  }

  /** Commas that belong before a streamed document: only an object writes its own. */
  function Before(d: Doc, comma: bool): string { CommaIf(comma && d.DObj?) }

  /** Everything nested is right, and no array follows a sibling. */
  ghost predicate NeatFrom(elems: seq<Elem>, comma: bool) {
    forall i :: 0 <= i < |elems| && elems[i].Sub? ==> Neat(elems[i].doc) && (elems[i].doc.DArr? ==> i == 0 && !comma)
  }

  ghost predicate Right(d: Doc) { CleanLeaves(d) && Neat(d) }

  ghost predicate RightFrom(elems: seq<Elem>, comma: bool) { CleanLeaves(DArr(elems)) && NeatFrom(elems, comma) }

  ghost predicate RightItem(h: Item) { if h.Plain? then Clean(h.value) else Right(h.doc) }

  /** The element after siblings or without them. */
  ghost predicate RightElem(e: Elem, comma: bool) {
    if e.Leaf? then Clean(e.value) else Right(e.doc) && !(e.doc.DArr? && comma)
  }

  lemma RightItems(items: seq<Item>)
    requires items != []
    ensures Right(DObj(items)) <==> RightItem(items[0]) && Right(DObj(items[1..]))
  {
    var t := items[1..];
    assert forall i :: 0 <= i < |t| ==> t[i] == items[i + 1];
    assert forall i :: 1 <= i < |items| ==> items[i] == t[i - 1];
  }

  lemma RightElems(elems: seq<Elem>, comma: bool)
    requires elems != []
    ensures RightFrom(elems, comma) <==> RightElem(elems[0], comma) && RightFrom(elems[1..], true)
  {
    var t := elems[1..];
    assert forall i :: 0 <= i < |t| ==> t[i] == elems[i + 1];
    assert forall i :: 1 <= i < |elems| ==> elems[i] == t[i - 1];
  }

  lemma {:induction false} SettleDoc(d: Doc, comma: bool)
    ensures Settled(Right(d), StreamDoc(d, comma), Before(d, comma) + PrintDoc(d))
    decreases d, 1
  {
    match d
    case DObj(items) =>
      SettleItems(items, false);
      Enclosed(CommaIf(comma), "{", PrintItems(items, false), "}");
      if !Right(d) {
        DivergeWithin(CommaIf(comma) + "{", StreamItems(items, false), PrintItems(items, false), "}", "}");
      }
    case DArr(elems) =>
      SettleElems(elems, false);
      assert "" + PrintDoc(d) == PrintDoc(d);
      if !Right(d) { DivergeWithin("[", StreamElems(elems, false), PrintArray(elems, false), "]", "]"); }
  }

  lemma Enclosed(c: string, open: string, t: string, close: string)
    ensures c + open + t + close == c + (open + t + close)
  {}

  lemma {:induction false} SettleItems(items: seq<Item>, comma: bool)
    ensures Settled(Right(DObj(items)), StreamItems(items, comma), PrintItems(items, comma))
    decreases items, 0
  {
    if items == [] {
    } else {
      var (h, t) := (items[0], items[1..]);
      RightItems(items);
      SettleItems(t, true);
      if h.Plain? {
        EqualOrDiverge(h.value, false);
        SurplusIff(h.value, false);
      } else {
        SettleDoc(h.doc, false);
        assert "" + PrintDoc(h.doc) == PrintDoc(h.doc);
      }
      var text := if h.Plain? then Encode(h.value, false).0 else StreamDoc(h.doc, false);
      var good := if h.Plain? then Print(h.value) else PrintDoc(h.doc);
      SettlePair(CommaIf(comma) + KeyText(h.key), text, good, StreamItems(t, true), PrintItems(t, true),
                 RightItem(h), Right(DObj(t)));
    }
  }

  lemma {:induction false} SettleElems(elems: seq<Elem>, comma: bool)
    ensures Settled(RightFrom(elems, comma), StreamElems(elems, comma), PrintArray(elems, comma))
    decreases elems, 0
  {
    if elems == [] {
    } else {
      var (e, t) := (elems[0], elems[1..]);
      RightElems(elems, comma);
      SettleElems(t, true);
      SettleElem(e, comma);
      var (s, p) := (ElemText(e, comma), CommaIf(comma) + if e.Leaf? then Print(e.value) else PrintDoc(e.doc));
      SettlePair("", s, p, StreamElems(t, true), PrintArray(t, true), RightElem(e, comma), RightFrom(t, true));
      assert "" + s == s && "" + p == p;
    }
  }

  function ElemText(e: Elem, comma: bool): string {
    if e.Leaf? then CommaIf(comma) + Encode(e.value, false).0 else StreamDoc(e.doc, comma)
  }

  lemma {:induction false} SettleElem(e: Elem, comma: bool)
    ensures
      var good := CommaIf(comma) + if e.Leaf? then Print(e.value) else PrintDoc(e.doc);
      Settled(RightElem(e, comma), ElemText(e, comma), good)
    decreases e, 0
  {
    var c := CommaIf(comma);
    if e.Leaf? {
      var v := e.value;
      EqualOrDiverge(v, false);
      SurplusIff(v, false);
      if !Clean(v) {
        DivergeWithin(c, Encode(v, false).0, Print(v), "", "");
        assert c + Encode(v, false).0 + "" == c + Encode(v, false).0 && c + Print(v) + "" == c + Print(v);
      }
    } else if e.doc.DArr? && comma {
      assert StreamDoc(e.doc, comma)[0] == '[' && (c + PrintDoc(e.doc))[0] == ',';
    } else {
      assert e.doc < e;
      SettleDoc(e.doc, comma);
    }
  }

  /**
   Streaming a document yields exactly one comma between siblings and none elsewhere if and only
   if every value in it is written that way and no array is started inside an array after its
   first element: `json_encode_array_start` writes no comma.  Two faults never make up for each
   other.
   */
  lemma StreamCommasIff(d: Doc)
    ensures RunCalls(State("", false), Calls(d)).out == PrintDoc(d) <==> CleanLeaves(d) && Neat(d)
  {
    RunDoc(State("", false), d);
    SettleDoc(d, false);
    assert "" + StreamDoc(d, false) == StreamDoc(d, false);
    assert "" + PrintDoc(d) == PrintDoc(d);
  }
}
