/** The decoder's loops over the buffer cursor, proved against the functions of `JsonDecode`. */
module JsonReader {
  import opened CText
  import opened JsonDecode

  lemma {:induction false} ChunkIsSlice(text: string, pos: nat, n: nat)
    requires pos <= |text|
    ensures Chunk(text, pos, n) == if pos + n <= |text| then text[pos..pos + n] else text[pos..]
    decreases n
  {
    if n == 0 || pos == |text| {
    } else {
      ChunkIsSlice(text, pos + 1, n - 1);
      var end := if pos + n <= |text| then pos + n else |text|;
      assert text[pos..end] == [text[pos]] + text[pos + 1..end];
    }
  }

  predicate Reading(text: string, pos: nat) { pos <= |text| }

  /** The reader used in specifications is the one for this element type. */
  ghost predicate Agrees(text: string, t: ElemType, read: ElemReader) {
    forall pos: nat {:trigger Reading(text, pos)} :: Reading(text, pos) ==> read(pos) == ReadElem(text, pos, t)
  }

  /** `json_decoder_t`: the text, its terminator, and the cursor. */
  class Decoder {
    const text: string
    var pos: nat

    constructor (text: string)
      ensures this.text == text && pos == 0
    {
      this.text, pos := text, 0;
    }

    method ReadNext() returns (c: char)
      modifies this
      ensures c == CharAt(text, old(pos)) && pos == Advance(text, old(pos))
    {
      if pos <= |text| {
        c := if pos < |text| then text[pos] else NUL;
        pos := pos + 1;
      } else {
        c := NUL;
      }
    }

    method ReadPrev() returns (c: char)
      modifies this
      ensures pos == Back(old(pos)) && c == if old(pos) > 0 then CharAt(text, pos) else NUL
    {
      if pos > 0 {
        pos := pos - 1;
        c := if pos < |text| then text[pos] else NUL;
      } else {
        c := NUL;
      }
    }

    method ReadN(size: nat) returns (s: string)
      requires pos <= |text|
      modifies this
      ensures s == Chunk(text, old(pos), size) && pos == old(pos) + |s|
    {
      ChunkIsSlice(text, pos, size);
      var n := if size > |text| - pos then |text| - pos else size;
      s := text[pos..pos + n];
      pos := pos + n;
    }

    method PushBack(count: nat)
      requires count <= pos
      modifies this
      ensures pos == old(pos) - count
    {
      for i := 0 to count
        invariant pos == old(pos) - i
      {
        var _ := ReadPrev();
      }
    }

    method SkipSpace()
      requires pos <= |text| + 1
      modifies this
      ensures pos == SkipWs(text, old(pos))
    {
      var c := ReadNext();
      while IsSpace(c)
        invariant 0 < pos <= |text| + 1 && c == CharAt(text, pos - 1)
        invariant SkipWs(text, pos - 1) == SkipWs(text, old(pos))
        decreases |text| + 1 - pos
      {
        c := ReadNext();
      }
      var _ := ReadPrev();
    }

    method Peek() returns (c: char)
      requires pos <= |text|
      modifies this
      ensures pos == old(pos) && c == CharAt(text, pos)
    {
      var _ := ReadNext();
      c := ReadPrev();
    }

    /** One element: a block is read, scanned, and what was not used is pushed back. */
    method ReadElement(t: ElemType, ghost read: ElemReader) returns (rc: nat, value: Stored)
      requires pos <= |text| && Agrees(text, t, read)
      modifies this
      ensures read(old(pos)) == if rc == OK then ElemOk(value, pos) else ElemErr(rc)
    {
      assert Reading(text, pos);
      rc, value := OK, VBool(false);
      var s := ReadN(if t.EBool? then 5 else 63);
      var used := 0;
      match t {
        case EInt =>
          var (v, end) := StrToI64(s);
          value, used := VInt(v), end;
          if end == 0 { rc := ERR_BADNUM; }
        case EUInt =>
          var (v, end) := StrToU64(s);
          value, used := VUInt(v), end;
          if end == 0 { rc := ERR_BADNUM; }
        case EBool =>
          if StartsWith(s, "true") {
            value, used := VBool(true), 4;
          } else if StartsWith(s, "false") {
            value, used := VBool(false), 5;
          } else {
            rc := ERR_MISC;
          }
      }
      if rc == OK { PushBack(|s| - used); }
    }

    method ReadArrayOf(t: ElemType, maxlen: nat) returns (rc: nat, elems: seq<Stored>)
      requires pos <= |text|
      modifies this
      ensures ReadArray(text, old(pos), ReaderOf(text, t), maxlen)
           == if rc == OK then ArrayOk(elems, pos) else ArrayErr(rc)
    {
      elems := [];
      SkipSpace();
      var c := ReadNext();
      if c != '[' { return ERR_ARRAYSTART, elems; }
      SkipSpace();
      c := Peek();
      if c == ']' { return OK, elems; }
      rc, elems := ReadElements(t, maxlen, ReaderOf(text, t));
    }

    method ReadElements(t: ElemType, maxlen: nat, ghost read: ElemReader) returns (rc: nat, elems: seq<Stored>)
      requires pos <= |text| && Advances(text, read) && Agrees(text, t, read)
      modifies this
      ensures ReadElems(text, old(pos), read, maxlen) == if rc == OK then ArrayOk(elems, pos) else ArrayErr(rc)
    {
      elems := [];
      ghost var goal := ReadElems(text, pos, read, maxlen);
      for offset := 0 to maxlen
        invariant pos <= |text|
        invariant goal == Prepend(elems, ReadElems(text, pos, read, maxlen - offset))
      {
        var last, value;
        rc, value, last := NextElement(t, read, maxlen - offset);
        if rc != OK { return; }
        if last {
          elems := elems + [value];
          return;
        }
        PrependTwice(elems, [value], ReadElems(text, pos, read, maxlen - offset - 1));
        elems := elems + [value];
      }
      rc := ERR_SUBTOOLONG;
    }

    /** One turn of the element loop, with the comma or bracket after the element. */
    method NextElement(t: ElemType, ghost read: ElemReader, ghost room: nat)
      returns (rc: nat, value: Stored, last: bool)
      requires pos <= |text| && Advances(text, read) && Agrees(text, t, read) && room > 0
      modifies this
      ensures rc == OK ==> pos <= |text|
      ensures ReadElems(text, old(pos), read, room)
           == if rc != OK then ArrayErr(rc)
              else if last then ArrayOk([value], pos)
              else Prepend([value], ReadElems(text, pos, read, room - 1))
    {
      last := false;
      SkipSpace();
      rc, value := ReadElement(t, read);
      if rc != OK { return; }
      SkipSpace();
      var c := ReadNext();
      if c == ']' {
        last := true;
      } else if c != ',' {
        rc := ERR_BADSUBTRAIL;
      }
    }

    /** The loop over the template for the attribute's name. */
    method Find(specs: seq<Spec>, name: string) returns (cursor: nat)
      ensures cursor == FindAttr(specs, name, 0)
    {
      cursor := 0;
      while cursor < |specs| && specs[cursor].name != name
        invariant cursor <= |specs| && FindAttr(specs, name, cursor) == FindAttr(specs, name, 0)
      {
        cursor := cursor + 1;
      }
    }

    /** The loop over adjacent attributes for one whose type fits the value. */
    method Seek(specs: seq<Spec>, name: string, val: string, quoted: bool, first: nat) returns (cursor: nat)
      requires first < |specs|
      ensures cursor == SeekType(specs, name, val, quoted, first)
    {
      cursor := first;
      while true
        invariant cursor < |specs|
        invariant SeekType(specs, name, val, quoted, cursor) == SeekType(specs, name, val, quoted, first)
        decreases |specs| - cursor
      {
        var kind := specs[cursor].kind;
        if quoted && kind.TStr? { break; }
        if (val == "true" || val == "false") && kind.TBool? { break; }
        if val != [] && IsDigit(val[0]) && '.' !in val && (kind.TInt? || kind.TUInt?) { break; }
        if cursor + 1 == |specs| { break; }
        if specs[cursor + 1].name != name { break; }
        cursor := cursor + 1;
      }
    }

    /** The `\u` case: four characters, the `u` itself being the first, then one step back. */
    method SkipUnicode(u: char)
      requires pos <= |text|
      modifies this
      ensures pos == AfterU(text, old(pos), 0, u)
    {
      var n, c := 0, u;
      while n < 4 && c != NUL
        invariant n <= 4 && 0 <= pos <= |text| + 1 && AfterU(text, pos, n, c) == AfterU(text, old(pos), 0, u)
        invariant c != NUL ==> pos <= |text|
        decreases 4 - n
      {
        c := ReadNext();
        n := n + 1;
      }
      var _ := ReadPrev();
    }

    /** The switch of `json_internal_read_object`; `stop` says that the function returns `rc`. */
    method Dispatch(specs: seq<Spec>, m: Machine, c: char) returns (stop: bool, rc: nat, n: Machine)
      requires Ready(specs, m) && 0 < pos <= |text| && c == text[pos - 1] && c != NUL
      modifies this
      ensures Step(specs, m, c, text, old(pos)) == if stop then Return(rc, n.store) else Continue(n, pos)
    {
      stop, rc, n := false, OK, m;
      match m.st {
        case Init =>
          if IsSpace(c) {
          } else if c == '{' {
            n := n.(st := AwaitAttr);
          } else {
            stop, rc := true, ERR_OBSTART;
          }
        case AwaitAttr =>
          if IsSpace(c) || c == '}' {
          } else if c == '"' {
            n := n.(st := InAttr, attr := "");
          } else {
            stop, rc := true, ERR_ATTRSTART;
          }
        case InAttr =>
          if c == '"' {
            var cursor := Find(specs, m.attr);
            if cursor == |specs| {
              stop, rc := true, ERR_BADATTR;
            } else {
              n := n.(st := AwaitValue, cursor := cursor, val := "", maxlen := MaxLen(specs[cursor].kind, m.maxlen));
            }
          } else if |m.attr| >= ATTR_MAX - 1 {
            stop, rc := true, ERR_ATTRLEN;
          } else {
            n := n.(attr := m.attr + [c]);
          }
        case AwaitValue =>
          stop, rc, n := BeginValue(specs, m, c);
        case InValString =>
          if c == '\\' {
            n := n.(st := InEscape);
          } else if c == '"' {
            n := n.(st := PostVal);
          } else if |m.val| > VAL_MAX - 1 || |m.val| > m.maxlen {
            stop, rc := true, ERR_STRLONG;
          } else {
            n := n.(val := m.val + [c]);
          }
        case InEscape =>
          if c == 'u' {
            SkipUnicode(c);
            n := n.(st := InValString, val := m.val + [NUL]);
          } else {
            n := n.(st := InValString, val := m.val + [Unescape(c)]);
          }
        case InValToken =>
          if IsSpace(c) || c == ',' || c == '}' {
            n := n.(st := PostVal);
            if c == '}' || c == ',' { var _ := ReadPrev(); }
          } else if |m.val| > VAL_MAX - 1 {
            stop, rc := true, ERR_TOKLONG;
          } else {
            n := n.(val := m.val + [c]);
          }
        case PostVal =>
          stop, rc, n := EndValue(specs, m, c);
        case PostArray =>
          stop, rc, n := Trail(m, c);
      }
    }

    method BeginValue(specs: seq<Spec>, m: Machine, c: char) returns (stop: bool, rc: nat, n: Machine)
      requires m.cursor < |specs| && 0 < pos <= |text| && c == text[pos - 1] && c != NUL
      modifies this
      ensures OnAwaitValue(specs, m, c, text, old(pos)) == if stop then Return(rc, n.store) else Continue(n, pos)
    {
      stop, rc, n := false, OK, m;
      var kind := specs[m.cursor].kind;
      if IsSpace(c) || c == ':' {
      } else if c == '[' {
        if !kind.TArr? { return true, ERR_NOARRAY, m; }
        var _ := ReadPrev();
        var elems;
        rc, elems := ReadArrayOf(kind.elem, kind.maxlen);
        if rc != OK { return true, rc, m; }
        n := m.(st := PostArray, store := m.store + [Write(m.cursor, VArr(elems))]);
      } else if kind.TArr? {
        stop, rc := true, ERR_NOBRAK;
      } else if c == '"' {
        n := m.(st := InValString, quoted := true, val := "");
      } else {
        n := m.(st := InValToken, quoted := false, val := [c]);
      }
    }

    /** State `post_val`: seek the type, convert, store, fall through. */
    method EndValue(specs: seq<Spec>, m: Machine, c: char) returns (stop: bool, rc: nat, n: Machine)
      requires m.cursor < |specs|
      ensures OnPostVal(specs, m, c, pos) == if stop then Return(rc, n.store) else Continue(n, pos)
    {
      var val := CString(m.val);
      var cursor := Seek(specs, m.attr, val, m.quoted, m.cursor);
      var kind := specs[cursor].kind;
      if m.quoted && !kind.TStr? { return true, ERR_QNONSTRING, m; }
      if !m.quoted && kind.TStr? { return true, ERR_NONQSTRING, m; }
      n := m.(cursor := cursor);
      var stored := Convert(kind, val);
      if stored.Some? { n := n.(store := m.store + [Write(cursor, stored.value)]); }
      stop, rc, n := Trail(n, c);
    }

    method Trail(m: Machine, c: char) returns (stop: bool, rc: nat, n: Machine)
      ensures AfterValue(m, c, pos) == if stop then Return(rc, n.store) else Continue(n, pos)
    {
      stop, rc, n := false, OK, m;
      if IsSpace(c) {
      } else if c == ',' {
        n := m.(st := AwaitAttr);
      } else if c == '}' {
        stop := true;
      } else {
        stop, rc := true, ERR_BADTRAIL;
      }
    }

    /** `json_read_object` on a fresh decoder; it ends on every text. */
    method ReadObjectInto(specs: seq<Spec>) returns (rc: nat, store: Store)
      requires pos == 0
      modifies this
      ensures ReadObject(specs, text) == Final(rc, store)
    {
      var m := Start(specs);
      var c := ReadNext();
      while c != NUL
        invariant 0 < pos <= |text| + 1 && c == CharAt(text, pos - 1) && Ready(specs, m)
        invariant Run(specs, m, text, pos - 1) == ReadObject(specs, text)
        decreases Measure(text, m, pos - 1)
      {
        StepProgress(specs, m, text, pos - 1);
        var stop;
        stop, rc, m := Dispatch(specs, m, c);
        if stop { return rc, m.store; }
        c := ReadNext();
      }
      return OK, m.store;
    }
  }

  function Prepend(elems: seq<Stored>, r: ArrayResult): ArrayResult {
    if r.ArrayErr? then r else ArrayOk(elems + r.elems, r.pos)
  }

  lemma PrependTwice(a: seq<Stored>, b: seq<Stored>, r: ArrayResult)
    ensures Prepend(a, Prepend(b, r)) == Prepend(a + b, r)
  {
    if r.ArrayOk? { assert a + (b + r.elems) == (a + b) + r.elems; }
  }
}
