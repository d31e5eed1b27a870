/**
 The JSON encoder of lib/json: values are written depth first, and one flag remembers
 whether the next key or streamed element must be preceded by a comma.
 */
module JsonEncode {
  import opened CText

  /** `struct json_value` without floating point. */
  datatype Value =
    | Bool(b: bool)
    | UInt(u: nat)
    | Int(i: int)
    | Str(s: string)
    | Arr(elems: seq<Value>)
    | Obj(entries: seq<Entry>)

  datatype Entry = Entry(key: string, value: Value)

  // ----- Scalars -----

  function EscapeChar(c: char): string {
    if c == '"' || c == '/' || c == '\\' then ['\\', c]
    else if c == '\t' then "\\t"
    else if c == '\r' then "\\r"
    else if c == '\n' then "\\n"
    else if c == FORM_FEED then "\\f"
    else if c == BACKSPACE then "\\b"
    else [c]
  }

  const FORM_FEED := 12 as char
  const BACKSPACE := 8 as char

  function Escape(s: string): string {
    if s == [] then [] else EscapeChar(s[0]) + Escape(s[1..])
  }

  function Quoted(s: string): string { "\"" + Escape(s) + "\"" }

  function Scalar(v: Value): string
    requires !v.Arr? && !v.Obj?
  {
    match v
    case Bool(b) => if b then "true" else "false"
    case UInt(u) => Decimal(u)
    case Int(i) => SignedDecimal(i)
    case Str(s) => Quoted(s)
  }

  function KeyText(key: string): string { "\"" + key + "\": " }

  function CommaIf(flag: bool): string { if flag then "," else "" }

  // ----- The text that a value tree should have: sections 4 and 5 of RFC 8259 -----

  function Print(v: Value): string
    decreases v, 1
  {
    match v
    case Arr(elems) => "[" + PrintElems(elems) + "]"
    case Obj(entries) => "{" + PrintEntries(entries) + "}"
    case _ => Scalar(v)
  }

  function PrintElems(elems: seq<Value>): string
    decreases elems, 0
  {
    if elems == [] then ""
    else Print(elems[0]) + CommaIf(|elems| > 1) + PrintElems(elems[1..])
  }

  function PrintEntries(entries: seq<Entry>): string
    decreases entries, 0
  {
    if entries == [] then ""
    else KeyText(entries[0].key) + Print(entries[0].value) + CommaIf(|entries| > 1) + PrintEntries(entries[1..])
  }

  // ----- The text that the encoder writes, and the flag it leaves -----

  function Encode(v: Value, flag: bool): (string, bool)
    decreases v, 1
  {
    match v
    case Arr(elems) =>
      var (text, f) := EncodeElems(elems, flag);
      ("[" + text + "]", f)
    case Obj(entries) =>
      var (text, f) := EncodeEntries(entries, flag);
      ("{" + text + "}", f)
    case _ => (Scalar(v), flag)
  }

  function EncodeElems(elems: seq<Value>, flag: bool): (string, bool)
    decreases elems, 0
  {
    if elems == [] then ("", flag)
    else
      var (first, f) := Encode(elems[0], flag);
      var (rest, g) := EncodeElems(elems[1..], f);
      (first + CommaIf(|elems| > 1) + rest, g)
  }

  function EncodeEntries(entries: seq<Entry>, flag: bool): (string, bool)
    decreases entries, 0
  {
    if entries == [] then ("", flag)
    else
      var first := CommaIf(flag) + KeyText(entries[0].key) + Encode(entries[0].value, false).0;
      var (rest, g) := EncodeEntries(entries[1..], true);
      (first + rest, g)
  }

  /** Text without tabs, line ends, form feeds and backspaces. */
  predicate OnOneLine(s: string) { forall i :: 0 <= i < |s| ==> s[i] !in {'\t', '\r', '\n', FORM_FEED, BACKSPACE} }

  /** The keys of a tree, which are written as they are, are on one line. */
  predicate KeysOnOneLine(v: Value)
  {
    match v
    case Arr(elems) => forall i :: 0 <= i < |elems| ==> KeysOnOneLine(elems[i])
    case Obj(entries) =>
      forall i :: 0 <= i < |entries| ==> OnOneLine(entries[i].key) && KeysOnOneLine(entries[i].value)
    case _ => true
  }

  lemma {:induction false} EscapedOnOneLine(s: string)
    ensures OnOneLine(Escape(s))
  {
    if s != [] { EscapedOnOneLine(s[1..]); }
  }

  lemma ScalarOnOneLine(v: Value)
    requires !v.Arr? && !v.Obj?
    ensures OnOneLine(Scalar(v))
  {
    match v
    case Str(s) => EscapedOnOneLine(s);
    case UInt(u) => DecimalOnOneLine(u);
    case Int(i) => DecimalOnOneLine(if i < 0 then -i else i);
    case Bool(_) =>
  }

  lemma DecimalOnOneLine(n: nat)
    ensures OnOneLine(Decimal(n))
  {
    forall i | 0 <= i < |Decimal(n)| ensures Decimal(n)[i] !in {'\t', '\r', '\n', FORM_FEED, BACKSPACE} {
      assert IsDigit(Decimal(n)[i]);
    }
  }

  /** Whatever strings a tree holds, it is written on one line. */
  lemma {:induction false} EncodedOnOneLine(v: Value, flag: bool)
    requires KeysOnOneLine(v)
    ensures OnOneLine(Encode(v, flag).0)
    decreases v, 1
  {
    match v
    case Arr(elems) => ElemsOnOneLine(elems, flag);
    case Obj(entries) => EntriesOnOneLine(entries, flag);
    case _ => ScalarOnOneLine(v);
  }

  lemma {:induction false} ElemsOnOneLine(elems: seq<Value>, flag: bool)
    requires forall i :: 0 <= i < |elems| ==> KeysOnOneLine(elems[i])
    ensures OnOneLine(EncodeElems(elems, flag).0)
    decreases elems, 0
  {
    if elems != [] {
      EncodedOnOneLine(elems[0], flag);
      ElemsOnOneLine(elems[1..], Encode(elems[0], flag).1);
    }
  }

  lemma {:induction false} EntriesOnOneLine(entries: seq<Entry>, flag: bool)
    requires forall i :: 0 <= i < |entries| ==> OnOneLine(entries[i].key) && KeysOnOneLine(entries[i].value)
    ensures OnOneLine(EncodeEntries(entries, flag).0)
    decreases entries, 0
  {
    if entries != [] {
      EncodedOnOneLine(entries[0].value, false);
      EntriesOnOneLine(entries[1..], true);
    }
  }

  // ----- Where the two differ -----

  /** The value contains a key that is reached without passing another key. */
  predicate Exposes(v: Value) {
    match v
    case Obj(entries) => entries != []
    case Arr(elems) => exists i :: 0 <= i < |elems| && Exposes(elems[i])
    case _ => false
  }

  /** No array below has two elements that expose a key. */
  predicate Clean(v: Value) {
    match v
    case Obj(entries) => forall i :: 0 <= i < |entries| ==> Clean(entries[i].value)
    case Arr(elems) =>
      && (forall i :: 0 <= i < |elems| ==> Clean(elems[i]))
      && (forall i, j :: 0 <= i < j < |elems| ==> !(Exposes(elems[i]) && Exposes(elems[j])))
    case _ => true
  }

  /** Surplus commas. */
  ghost function Extra(v: Value, flag: bool): nat
    decreases v, 1
  {
    match v
    case Arr(elems) => ExtraElems(elems, flag)
    case Obj(entries) => (if flag && entries != [] then 1 else 0) + ExtraEntries(entries)
    case _ => 0
  }

  ghost function ExtraElems(elems: seq<Value>, flag: bool): nat
    decreases elems, 0
  {
    if elems == [] then 0 else Extra(elems[0], flag) + ExtraElems(elems[1..], flag || Exposes(elems[0]))
  }

  ghost function ExtraEntries(entries: seq<Entry>): nat
    decreases entries, 0
  {
    if entries == [] then 0 else Extra(entries[0].value, false) + ExtraEntries(entries[1..])
  }

  lemma {:induction false} FlagAfter(v: Value, flag: bool)
    ensures Encode(v, flag).1 == (flag || Exposes(v))
    decreases v, 1
  {
    if v.Arr? { FlagAfterElems(v.elems, flag); }
    if v.Obj? { FlagAfterEntries(v.entries, flag); }
  }

  lemma {:induction false} FlagAfterElems(elems: seq<Value>, flag: bool)
    ensures EncodeElems(elems, flag).1 == (flag || exists i :: 0 <= i < |elems| && Exposes(elems[i]))
    decreases elems, 0
  {
    if elems == [] {
    } else {
      FlagAfter(elems[0], flag);
      FlagAfterElems(elems[1..], flag || Exposes(elems[0]));
      var t := elems[1..];
      assert forall i :: 1 <= i < |elems| ==> elems[i] == t[i - 1];
      assert forall i :: 0 <= i < |t| ==> t[i] == elems[i + 1];
    }
  }

  lemma {:induction false} FlagAfterEntries(entries: seq<Entry>, flag: bool)
    ensures EncodeEntries(entries, flag).1 == (flag || entries != [])
    decreases entries, 0
  {
    if entries == [] {
    } else {
      FlagAfterEntries(entries[1..], true);
    }
  }

  /** The texts differ at a position that both have, so they differ however they go on. */
  ghost predicate Diverge(s: string, t: string) { exists i :: 0 <= i < |s| && i < |t| && s[i] != t[i] }

  lemma DivergeWithin(p: string, s: string, t: string, u: string, v: string)
    requires Diverge(s, t)
    ensures Diverge(p + s + u, p + t + v)
  {
    var i :| 0 <= i < |s| && i < |t| && s[i] != t[i];
    assert (p + s + u)[|p| + i] == s[i] && (p + t + v)[|p| + i] == t[i];
  }

  /** Where all is right the text is the reference; otherwise the two diverge. */
  ghost predicate Settled(right: bool, s: string, t: string) { if right then s == t else Diverge(s, t) }

  /** A piece and the rest, behind the same text. */
  lemma SettlePair(p: string, s: string, t: string, u: string, v: string, first: bool, rest: bool)
    requires Settled(first, s, t) && Settled(rest, u, v)
    ensures Settled(first && rest, p + s + u, p + t + v)
  {
    if !first {
      DivergeWithin(p, s, t, u, v);
    } else if !rest {
      DivergeWithin(p + s, u, v, "", "");
      assert p + s + u + "" == p + s + u && p + s + v + "" == p + t + v;
    }
  }

  lemma SettleBehind(p: string, s: string, t: string, right: bool)
    requires Settled(right, s, t)
    ensures Settled(right, p + s, p + t)
  {
    if !right {
      DivergeWithin(p, s, t, "", "");
      assert p + s + "" == p + s && p + t + "" == p + t;
    }
  }

  /** Without surplus the encoder's text is the reference; with it the two diverge. */
  lemma {:induction false} EqualOrDiverge(v: Value, flag: bool)
    ensures Settled(Extra(v, flag) == 0, Encode(v, flag).0, Print(v))
    decreases v, 1
  {
    match v
    case Arr(elems) =>
      ElemsOrDiverge(elems, flag);
      if ExtraElems(elems, flag) > 0 { DivergeWithin("[", EncodeElems(elems, flag).0, PrintElems(elems), "]", "]"); }
    case Obj(entries) => ObjectOrDiverge(entries, flag);
    case _ =>
  }

  lemma {:induction false} ObjectOrDiverge(entries: seq<Entry>, flag: bool)
    ensures var v := Obj(entries); Settled(Extra(v, flag) == 0, Encode(v, flag).0, Print(v))
    decreases entries, 1
  {
    var (s, t) := (EncodeEntries(entries, flag).0, PrintEntries(entries));
    assert Encode(Obj(entries), flag).0 == "{" + s + "}";
    if entries == [] {
      assert s == "" == t;
    } else if flag {
      EntryText(entries, true);
      assert ("{" + s + "}")[1] == ',' && ("{" + t + "}")[1] == KeyText(entries[0].key)[0];
    } else {
      EntriesOrDiverge(entries, false);
      assert CommaIf(false) + t == t;
      if ExtraEntries(entries) > 0 { DivergeWithin("{", s, t, "}", "}"); }
    }
  }

  lemma {:induction false} ElemsOrDiverge(elems: seq<Value>, flag: bool)
    ensures Settled(ExtraElems(elems, flag) == 0, EncodeElems(elems, flag).0, PrintElems(elems))
    decreases elems, 0
  {
    if elems == [] {
    } else {
      var (h, t, c) := (elems[0], elems[1..], CommaIf(|elems| > 1));
      var f := flag || Exposes(h);
      EqualOrDiverge(h, flag);
      FlagAfter(h, flag);
      ElemsOrDiverge(t, f);
      var (s, p) := (EncodeElems(t, f).0, PrintElems(t));
      SettleBehind(c, s, p, ExtraElems(t, f) == 0);
      SettlePair("", Encode(h, flag).0, Print(h), c + s, c + p, Extra(h, flag) == 0, ExtraElems(t, f) == 0);
      Ungroup(Encode(h, flag).0, c, s);
      Ungroup(Print(h), c, p);
    }
  }

  lemma Ungroup(first: string, c: string, rest: string)
    ensures "" + first + (c + rest) == first + c + rest
  {}

  /** Entries: the comma belongs before the key; the reference writes it after the value. */
  lemma {:induction false} EntriesOrDiverge(entries: seq<Entry>, flag: bool)
    requires entries != []
    ensures Settled(ExtraEntries(entries) == 0, EncodeEntries(entries, flag).0, CommaIf(flag) + PrintEntries(entries))
    decreases entries, 0
  {
    var (h, t) := (entries[0], entries[1..]);
    var (k, v, w, p) := (CommaIf(flag) + KeyText(h.key), Encode(h.value, false).0, Print(h.value), PrintEntries(t));
    var rest := if t == [] then "" else "," + p;
    EqualOrDiverge(h.value, false);
    EntryText(entries, flag);
    JoinEntry(CommaIf(flag), KeyText(h.key), w, rest);
    if t != [] { EntriesOrDiverge(t, true); }
    SettlePair(k, v, w, EncodeEntries(t, true).0, rest, Extra(h.value, false) == 0, ExtraEntries(t) == 0);
  }

  lemma EntryText(entries: seq<Entry>, flag: bool)
    requires entries != []
    ensures
      var (h, t) := (entries[0], entries[1..]);
      && EncodeEntries(entries, flag).0
         == CommaIf(flag) + KeyText(h.key) + Encode(h.value, false).0 + EncodeEntries(t, true).0
      && (t == [] ==> EncodeEntries(t, true).0 == "" && PrintEntries(entries) == KeyText(h.key) + Print(h.value))
      && (t != [] ==> PrintEntries(entries) == KeyText(h.key) + Print(h.value) + "," + PrintEntries(t))
  {}

  lemma JoinEntry(c: string, k: string, v: string, rest: string)
    ensures c + k + v + rest == c + (k + v + rest)
    ensures rest != [] && rest[0] == ',' ==> k + v + rest == k + v + "," + rest[1..]
  {}

  lemma {:induction false} SurplusIff(v: Value, flag: bool)
    ensures Extra(v, flag) == 0 <==> Clean(v) && !(flag && Exposes(v))
    decreases v, 1
  {
    if v.Arr? { SurplusElemsIff(v.elems, flag); }
    if v.Obj? { SurplusEntriesIff(v.entries); }
  }

  lemma {:induction false} SurplusElemsIff(elems: seq<Value>, flag: bool)
    ensures ExtraElems(elems, flag) == 0
            <==> Clean(Arr(elems)) && !(flag && Exposes(Arr(elems)))
    decreases elems, 0
  {
    if elems == [] {
    } else {
      var t := elems[1..];
      SurplusIff(elems[0], flag);
      SurplusElemsIff(t, flag || Exposes(elems[0]));
      SplitClean(elems);
    }
  }

  lemma SplitClean(elems: seq<Value>)
    requires elems != []
    ensures var (h, t) := (elems[0], elems[1..]);
            && (Exposes(Arr(elems)) <==> Exposes(h) || Exposes(Arr(t)))
            && (Clean(Arr(elems)) <==> Clean(h) && Clean(Arr(t)) && !(Exposes(h) && Exposes(Arr(t))))
  {
    var (h, t) := (elems[0], elems[1..]);
    assert forall i :: 0 <= i < |t| ==> t[i] == elems[i + 1];
    assert forall i :: 1 <= i < |elems| ==> elems[i] == t[i - 1];
    if Clean(Arr(elems)) {
      forall i, j | 0 <= i < j < |t| ensures !(Exposes(t[i]) && Exposes(t[j])) {
        assert t[i] == elems[i + 1] && t[j] == elems[j + 1];
      }
    }
  }

  lemma {:induction false} SurplusEntriesIff(entries: seq<Entry>)
    ensures ExtraEntries(entries) == 0 <==> forall i :: 0 <= i < |entries| ==> Clean(entries[i].value)
    decreases entries, 0
  {
    if entries == [] {
    } else {
      var t := entries[1..];
      SurplusIff(entries[0].value, false);
      SurplusEntriesIff(t);
      assert forall i :: 0 <= i < |t| ==> t[i] == entries[i + 1];
      assert forall i :: 1 <= i < |entries| ==> entries[i] == t[i - 1];
    }
  }

  /**
   A value tree is written with exactly one comma between siblings and none elsewhere if and
   only if no array in it has two elements that expose a key: the array loop does not clear
   the flag that the first such element leaves set.
   */
  lemma CommasIff(v: Value)
    ensures Encode(v, false).0 == Print(v) <==> Clean(v)
  {
    EqualOrDiverge(v, false);
    SurplusIff(v, false);
  }
}
