/**
 The template-driven JSON decoder of lib/json: a cursor over the text that can step back,
 an array reader, and a nine-state machine for objects.
 */
module JsonDecode {
  import opened CText
  import opened Common

  // Error codes.
  const OK := 0
  const ERR_OBSTART := 1
  const ERR_ATTRSTART := 2
  const ERR_BADATTR := 3
  const ERR_ATTRLEN := 4
  const ERR_NOARRAY := 5
  const ERR_NOBRAK := 6
  const ERR_STRLONG := 7
  const ERR_TOKLONG := 8
  const ERR_BADTRAIL := 9
  const ERR_ARRAYSTART := 10
  const ERR_SUBTOOLONG := 12
  const ERR_BADSUBTRAIL := 13
  const ERR_QNONSTRING := 19
  const ERR_NONQSTRING := 20
  const ERR_MISC := 21
  const ERR_BADNUM := 22

  const ATTR_MAX := 31
  const VAL_MAX := 512

  // ----- The cursor -----

  /** The character under the cursor; the text is followed by its terminator. */
  function CharAt(text: string, pos: nat): char {
    if pos < |text| then text[pos] else NUL
  }

  /** `json_read_next` moves past the terminator once and then stays. */
  function Advance(text: string, pos: nat): nat {
    if pos <= |text| then pos + 1 else pos
  }

  /** `json_read_prev`. */
  function Back(pos: nat): nat { if pos > 0 then pos - 1 else 0 }

  /** `json_skip_ws`: reads up to the first non-space and steps back. */
  function SkipWs(text: string, pos: nat): (r: nat)
    ensures r <= |text| && (pos <= |text| ==> pos <= r)
    decreases |text| - pos
  {
    if pos < |text| && IsSpace(text[pos]) then SkipWs(text, pos + 1)
    else if pos <= |text| then pos else |text|
  }

  // ----- Templates and stored values -----

  datatype ElemType = EInt | EUInt | EBool

  datatype FieldType =
    | TInt
    | TUInt
    | TBool
    | TStr(len: nat)
    | TArr(elem: ElemType, maxlen: nat)

  datatype Stored = VInt(i: int) | VUInt(u: nat) | VBool(b: bool) | VStr(s: string) | VArr(elems: seq<Stored>)

  /** One `json_attr_t`; `default` is `None` when the attribute keeps its old value. */
  datatype Spec = Spec(name: string, kind: FieldType, default: Option<Stored>)

  /** A write to the target of the attribute at this position of the template. */
  datatype Write = Write(attr: nat, value: Stored)

  /** What the reader does to memory: its writes, in order (targets may overlap). */
  type Store = seq<Write>

  /** The defaults that are written before the text is read. */
  function Defaults(specs: seq<Spec>, i: nat): Store
    requires i <= |specs|
    decreases |specs| - i
  {
    if i == |specs| then []
    else (if specs[i].default.Some? then [Write(i, specs[i].default.value)] else []) + Defaults(specs, i + 1)
  }

  /** What a target that nothing else overlaps holds after some writes; `old_` is what it held before. */
  function Latest(store: Store, k: nat, old_: Stored): Stored {
    if store == [] then old_
    else if store[|store| - 1].attr == k then store[|store| - 1].value
    else Latest(store[..|store| - 1], k, old_)
  }

  /** The part of a buffer that C sees as a string. */
  function CString(s: string): string {
    if s == [] || s[0] == NUL then [] else [s[0]] + CString(s[1..])
  }

  // ----- Arrays -----

  datatype ElemResult = ElemOk(value: Stored, pos: nat) | ElemErr(rc: nat)

  /** `json_readn`: up to `size` characters from the cursor. */
  function Chunk(text: string, pos: nat, size: nat): (r: string)
    ensures |r| <= size && (pos <= |text| ==> pos + |r| <= |text|)
    decreases size
  {
    if size == 0 || pos >= |text| then [] else [text[pos]] + Chunk(text, pos + 1, size - 1)
  }

  predicate StartsWith(s: string, p: string) { |p| <= |s| && s[..|p|] == p }

  /** One array element at `pos`: a block is read, scanned, and the unused rest pushed back. */
  function ReadElem(text: string, pos: nat, t: ElemType): (r: ElemResult)
    ensures r.ElemOk? && pos <= |text| ==> pos < r.pos <= |text|
  {
    match t
    case EInt =>
      var (v, end) := StrToI64(Chunk(text, pos, 63));
      if end == 0 then ElemErr(ERR_BADNUM) else ElemOk(VInt(v), pos + end)
    case EUInt =>
      var (v, end) := StrToU64(Chunk(text, pos, 63));
      if end == 0 then ElemErr(ERR_BADNUM) else ElemOk(VUInt(v), pos + end)
    case EBool =>
      var s := Chunk(text, pos, 5);
      if StartsWith(s, "true") then ElemOk(VBool(true), pos + 4)
      else if StartsWith(s, "false") then ElemOk(VBool(false), pos + 5)
      else ElemErr(ERR_MISC)
  }

  type ElemReader = nat -> ElemResult

  function ReaderOf(text: string, t: ElemType): (read: ElemReader)
    ensures Advances(text, read)
  {
    (pos: nat) => ReadElem(text, pos, t)
  }

  /** A reader consumes something and stays inside the text. */
  ghost predicate Advances(text: string, read: ElemReader) {
    forall pos: nat :: pos <= |text| && read(pos).ElemOk? ==> pos < read(pos).pos <= |text|
  }

  datatype ArrayResult = ArrayOk(elems: seq<Stored>, pos: nat) | ArrayErr(rc: nat)

  /** The element loop of `json_read_array`. */
  function ReadElems(text: string, pos: nat, read: ElemReader, room: nat): (r: ArrayResult)
    requires Advances(text, read)
    ensures r.ArrayOk? && pos <= |text| ==> pos < r.pos <= |text|
    decreases room
  {
    if room == 0 then ArrayErr(ERR_SUBTOOLONG)
    else
      var e := read(SkipWs(text, pos));
      if e.ElemErr? then ArrayErr(e.rc)
      else
        var p := SkipWs(text, e.pos);
        if CharAt(text, p) == ']' then ArrayOk([e.value], p + 1)
        else if CharAt(text, p) != ',' then ArrayErr(ERR_BADSUBTRAIL)
        else
          var rest := ReadElems(text, p + 1, read, room - 1);
          if rest.ArrayErr? then rest else ArrayOk([e.value] + rest.elems, rest.pos)
  }

  /** `json_read_array`.  An empty array leaves its closing bracket unread. */
  function ReadArray(text: string, pos: nat, read: ElemReader, maxlen: nat): (r: ArrayResult)
    requires Advances(text, read)
    ensures r.ArrayOk? && pos <= |text| ==> pos < r.pos <= |text|
  {
    var p := SkipWs(text, pos);
    if CharAt(text, p) != '[' then ArrayErr(ERR_ARRAYSTART)
    else
      var q := SkipWs(text, p + 1);
      if CharAt(text, q) == ']' then ArrayOk([], q)
      else ReadElems(text, q, read, maxlen)
  }

  // ----- Objects -----

  datatype ObjState = Init | AwaitAttr | InAttr | AwaitValue | InValString | InEscape | InValToken | PostVal | PostArray

  /** The variables of the object reader. */
  datatype Machine = Machine(st: ObjState, attr: string, val: string, quoted: bool, cursor: nat, maxlen: int,
                             store: Store)

  /** What one character leads to. */
  datatype Outcome = Continue(m: Machine, pos: nat) | Return(rc: nat, store: Store)

  function Start(specs: seq<Spec>): Machine {
    Machine(Init, "", "", false, 0, 0, Defaults(specs, 0))
  }

  /** The first attribute with this name, or the length of the template. */
  function FindAttr(specs: seq<Spec>, name: string, i: nat): (r: nat)
    requires i <= |specs|
    ensures i <= r <= |specs| && (r < |specs| ==> specs[r].name == name)
    decreases |specs| - i
  {
    if i == |specs| || specs[i].name == name then i else FindAttr(specs, name, i + 1)
  }

  /** Seeks forward among adjacent attributes of the same name for one that fits the value. */
  function SeekType(specs: seq<Spec>, name: string, val: string, quoted: bool, cursor: nat): (r: nat)
    requires cursor < |specs|
    ensures cursor <= r < |specs|
    decreases |specs| - cursor
  {
    var kind := specs[cursor].kind;
    if quoted && kind.TStr? then cursor
    else if (val == "true" || val == "false") && kind.TBool? then cursor
    else if val != [] && IsDigit(val[0]) && '.' !in val && (kind.TInt? || kind.TUInt?) then cursor
    else if cursor + 1 == |specs| || specs[cursor + 1].name != name then cursor
    else SeekType(specs, name, val, quoted, cursor + 1)
  }

  /** Converts a collected value and stores it; `None` stores nothing. */
  function Convert(kind: FieldType, val: string): Option<Stored> {
    match kind
    case TInt => Some(VInt(StrToI64(val).0))
    case TUInt => Some(VUInt(StrToU64(val).0))
    case TBool => Some(VBool(val == "true"))
    case TStr(len) => Some(VStr(if |val| <= len then val else val[..len]))
    case TArr(_, _) => None
  }

  /** The bounds that a quoted value is held to, as the attribute is recognised. */
  function MaxLen(kind: FieldType, old_: int): int {
    match kind
    case TStr(len) => len - 1
    case TBool => 5
    case _ => old_
  }

  /** Where `\u` leaves the cursor: it collects the `u` itself and up to three more characters. */
  function AfterU(text: string, pos: nat, n: nat, c: char): (r: nat)
    requires n <= 4
    ensures pos <= r + 1 && (n < 4 && c != NUL && pos <= |text| ==> pos <= r)
    ensures pos <= |text| + 1 ==> r <= |text|
    decreases 4 - n
  {
    if n < 4 && c != NUL then AfterU(text, Advance(text, pos), n + 1, CharAt(text, pos))
    else if pos <= |text| + 1 then Back(pos) else pos
  }

  function Unescape(c: char): char {
    match c
    case 'b' => 8 as char
    case 'f' => 12 as char
    case 'n' => '\n'
    case 'r' => '\r'
    case 't' => '\t'
    case _ => c
  }

  /** States `post_val` (after storing) and `post_array`. */
  function AfterValue(m: Machine, c: char, pos: nat): Outcome {
    if IsSpace(c) then Continue(m, pos)
    else if c == ',' then Continue(m.(st := AwaitAttr), pos)
    else if c == '}' then Return(OK, m.store)
    else Return(ERR_BADTRAIL, m.store)
  }

  /** State `post_val`. */
  function OnPostVal(specs: seq<Spec>, m: Machine, c: char, pos: nat): Outcome
    requires m.cursor < |specs|
  {
    var val := CString(m.val);
    var cursor := SeekType(specs, m.attr, val, m.quoted, m.cursor);
    var kind := specs[cursor].kind;
    if m.quoted && !kind.TStr? then Return(ERR_QNONSTRING, m.store)
    else if !m.quoted && kind.TStr? then Return(ERR_NONQSTRING, m.store)
    else
      var stored := Convert(kind, val);
      var store := if stored.Some? then m.store + [Write(cursor, stored.value)] else m.store;
      AfterValue(m.(cursor := cursor, store := store), c, pos)
  }

  /** State `await_value`. */
  function OnAwaitValue(specs: seq<Spec>, m: Machine, c: char, text: string, pos: nat): Outcome
    requires m.cursor < |specs|
  {
    var kind := specs[m.cursor].kind;
    if IsSpace(c) || c == ':' then Continue(m, pos)
    else if c == '[' then
      if !kind.TArr? then Return(ERR_NOARRAY, m.store)
      else
        var a := ReadArray(text, Back(pos), ReaderOf(text, kind.elem), kind.maxlen);
        if a.ArrayErr? then Return(a.rc, m.store)
        else Continue(m.(st := PostArray, store := m.store + [Write(m.cursor, VArr(a.elems))]), a.pos)
    else if kind.TArr? then Return(ERR_NOBRAK, m.store)
    else if c == '"' then Continue(m.(st := InValString, quoted := true, val := ""), pos)
    else Continue(m.(st := InValToken, quoted := false, val := [c]), pos)
  }

  /** One character `c` of the object reader, the cursor already being past it. */
  function Step(specs: seq<Spec>, m: Machine, c: char, text: string, pos: nat): Outcome
    requires Ready(specs, m)
  {
    match m.st
    case Init =>
      if IsSpace(c) then Continue(m, pos)
      else if c == '{' then Continue(m.(st := AwaitAttr), pos)
      else Return(ERR_OBSTART, m.store)
    case AwaitAttr =>
      if IsSpace(c) then Continue(m, pos)
      else if c == '"' then Continue(m.(st := InAttr, attr := ""), pos)
      else if c == '}' then Continue(m, pos)
      else Return(ERR_ATTRSTART, m.store)
    case InAttr =>
      if c == '"' then
        var cursor := FindAttr(specs, m.attr, 0);
        if cursor == |specs| then Return(ERR_BADATTR, m.store)
        else
          var maxlen := MaxLen(specs[cursor].kind, m.maxlen);
          Continue(m.(st := AwaitValue, cursor := cursor, val := "", maxlen := maxlen), pos)
      else if |m.attr| >= ATTR_MAX - 1 then Return(ERR_ATTRLEN, m.store)
      else Continue(m.(attr := m.attr + [c]), pos)
    case AwaitValue => OnAwaitValue(specs, m, c, text, pos)
    case InValString =>
      if c == '\\' then Continue(m.(st := InEscape), pos)
      else if c == '"' then Continue(m.(st := PostVal), pos)
      else if |m.val| > VAL_MAX - 1 || |m.val| > m.maxlen then Return(ERR_STRLONG, m.store)
      else Continue(m.(val := m.val + [c]), pos)
    case InEscape =>
      if c == 'u' then Continue(m.(st := InValString, val := m.val + [NUL]), AfterU(text, pos, 0, c))
      else Continue(m.(st := InValString, val := m.val + [Unescape(c)]), pos)
    case InValToken =>
      if IsSpace(c) || c == ',' || c == '}' then
        Continue(m.(st := PostVal), if c == ',' || c == '}' then Back(pos) else pos)
      else if |m.val| > VAL_MAX - 1 then Return(ERR_TOKLONG, m.store)
      else Continue(m.(val := m.val + [c]), pos)
    case PostVal => OnPostVal(specs, m, c, pos)
    case PostArray => AfterValue(m, c, pos)
  }

  /** In the states that use it, the template cursor is inside the template. */
  predicate Ready(specs: seq<Spec>, m: Machine) {
    m.st.Init? || m.st.AwaitAttr? || m.st.InAttr? || m.cursor < |specs|
  }

  /** Characters left, doubled, plus one while a token can still be pushed back. */
  ghost function Measure(text: string, m: Machine, pos: nat): nat
    requires pos <= |text|
  {
    2 * (|text| - pos) + if m.st.InValToken? then 1 else 0
  }

  /** Every step that continues makes progress although some push a character back. */
  lemma StepProgress(specs: seq<Spec>, m: Machine, text: string, pos: nat)
    requires Ready(specs, m) && pos < |text| && text[pos] != NUL
    ensures
      var o := Step(specs, m, text[pos], text, pos + 1);
      o.Continue? ==> Ready(specs, o.m) && o.pos <= |text| && Measure(text, o.m, o.pos) < Measure(text, m, pos)
  {
    match m.st
    case AwaitValue => AwaitProgress(specs, m, text, pos);
    case _ =>
  }

  lemma AwaitProgress(specs: seq<Spec>, m: Machine, text: string, pos: nat)
    requires Ready(specs, m) && pos < |text| && text[pos] != NUL && m.st.AwaitValue?
    ensures
      var o := OnAwaitValue(specs, m, text[pos], text, pos + 1);
      o.Continue? ==> Ready(specs, o.m) && o.pos <= |text| && Measure(text, o.m, o.pos) < Measure(text, m, pos)
  {}

  datatype Final = Final(rc: nat, store: Store)

  /** `json_internal_read_object` from any point on.  The end of the text is success. */
  function Run(specs: seq<Spec>, m: Machine, text: string, pos: nat): Final
    requires Ready(specs, m) && pos <= |text|
    decreases Measure(text, m, pos)
  {
    if CharAt(text, pos) == NUL then Final(OK, m.store)
    else
      var o := Step(specs, m, text[pos], text, pos + 1);
      if o.Return? then Final(o.rc, o.store)
      else StepProgress(specs, m, text, pos); Run(specs, o.m, text, o.pos)
  }

  /** `json_read_object`. */
  function ReadObject(specs: seq<Spec>, text: string): Final {
    Run(specs, Start(specs), text, 0)
  }
}
