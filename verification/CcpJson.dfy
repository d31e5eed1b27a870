/**
 The JSON record of a clock calibration packet: `ccp_json_write_uint64`, the line buffer it
 writes through, and `ccp_json_read_uint64`, whose 64-bit stores overlap inside the record.
 */
module CcpJson {
  import opened Common
  import opened CText
  import opened JsonEncode
  import opened JsonStream
  import opened JsonDecode
  import opened JsonRoundTrip
  import opened JsonReader

  /** The fields of `ccp_json_t` that are written out. */
  datatype Packet = Packet(utime: nat, seqno: nat, uid: nat, ccp0: nat, ccp1: nat, ppm: nat)

  predicate InRange(p: Packet) {
    && p.utime < U64_LIMIT && p.seqno < 256 && p.uid < TWO32
    && p.ccp0 < U64_LIMIT && p.ccp1 < U64_LIMIT && p.ppm < U64_LIMIT
  }

  /** The bit pattern is a binary64 NaN. */
  predicate IsNan(bits: nat) { bits % 0x8000_0000_0000_0000 > 0x7FF0_0000_0000_0000 }

  // ----- Writing -----

  function PpmEntries(p: Packet): seq<Entry> {
    if !IsNan(p.ppm) then [Entry("ppm", UInt(p.ppm))] else []
  }

  function Optional(p: Packet): seq<Entry> {
    (if p.uid != 0 then [Entry("uid", UInt(p.uid))] else []) + PpmEntries(p)
  }

  function FixedEntries(p: Packet): seq<Entry> {
    [Entry("utime", UInt(p.utime)), Entry("ccp", Arr([UInt(p.ccp0), UInt(p.ccp1)])), Entry("seq", UInt(p.seqno))]
  }

  function Entries(p: Packet): seq<Entry> {
    FixedEntries(p) + Optional(p)
  }

  function Text(p: Packet): string { Encode(Obj(Entries(p)), false).0 }

  lemma PairText(a: nat, b: nat)
    ensures Encode(Arr([UInt(a), UInt(b)]), false).0 == "[" + Decimal(a) + "," + Decimal(b) + "]"
  {
    var (x, y) := (Decimal(a), Decimal(b));
    var elems := [UInt(a), UInt(b)];
    assert elems[1..] == [UInt(b)] && elems[1..][1..] == [];
    assert EncodeElems(elems[1..], false).0 == y + "" + "" == y;
    PairElems(elems, x, y);
    assert "[" + (x + "," + y) + "]" == "[" + x + "," + y + "]";
  }

  lemma PairElems(elems: seq<Value>, x: string, y: string)
    requires |elems| == 2 && Encode(elems[0], false) == (x, false) && EncodeElems(elems[1..], false).0 == y
    ensures EncodeElems(elems, false).0 == x + "," + y
  {}

  /** The text of a streamed pair, call by call. */
  lemma PairStreamed(s: State, a: nat, b: nat)
    requires !s.comma
    ensures
      Apply(Apply(Apply(s, ArrayValue(UInt(a))), ArrayValue(UInt(b))), ArrayFinish)
      == State(s.out + Decimal(a) + "," + Decimal(b) + "]", true)
  {
    assert s.out + "" == s.out;
  }

  /** A named array streamed element by element is the same as an entry with an array value. */
  lemma StreamedArray(st: State, key: string, a: nat, b: nat)
    ensures
      var s := Apply(Apply(st, ObjectKey(key)), ArrayStart);
      Apply(Apply(Apply(s, ArrayValue(UInt(a))), ArrayValue(UInt(b))), ArrayFinish)
      == Apply(st, ObjectEntry(key, Arr([UInt(a), UInt(b)])))
  {
    var c := st.out + CommaIf(st.comma) + KeyText(key);
    PairStreamed(State(c + "[", false), a, b);
    PairText(a, b);
    assert c + "[" + Decimal(a) + "," + Decimal(b) + "]" == c + ("[" + Decimal(a) + "," + Decimal(b) + "]");
  }

  /** What is still to be written: `done` entries are out, the comma flag is set after the first. */
  ghost predicate Progress(out: string, comma: bool, entries: seq<Entry>, done: nat) {
    done <= |entries| && comma == (done > 0)
    && out + EncodeEntries(entries[done..], comma).0 == "{" + EncodeEntries(entries, false).0
  }

  lemma ProgressStep(before: State, entries: seq<Entry>, done: nat)
    requires done < |entries| && Progress(before.out, before.comma, entries, done)
    ensures
      var after := Apply(before, ObjectEntry(entries[done].key, entries[done].value));
      Progress(after.out, after.comma, entries, done + 1)
  {
    assert entries[done..][0] == entries[done] && entries[done..][1..] == entries[done + 1..];
    EntryStep(before.out, entries[done..], before.comma);
  }

  lemma ProgressStart(entries: seq<Entry>)
    ensures Progress(Apply(State("", false), ObjectStart).out, false, entries, 0)
  {
    assert entries[0..] == entries && "" + "" + "{" == "{";
  }

  lemma ProgressEnd(st: State, entries: seq<Entry>)
    requires Progress(st.out, st.comma, entries, |entries|)
    ensures Apply(st, ObjectFinish).out == Encode(Obj(entries), false).0
  {
    assert entries[|entries|..] == [];
    assert st.out == "{" + EncodeEntries(entries, false).0;
  }

  method PutNumber(enc: Encoder, ghost entries: seq<Entry>, ghost done: nat, key: string, n: nat)
    requires Progress(enc.out, enc.comma, entries, done) && done < |entries| && entries[done] == Entry(key, UInt(n))
    modifies enc
    ensures Progress(enc.out, enc.comma, entries, done + 1)
  {
    ProgressStep(enc.St(), entries, done);
    enc.WriteEntry(key, UInt(n));
  }

  method PutPair(enc: Encoder, ghost entries: seq<Entry>, ghost done: nat, key: string, a: nat, b: nat)
    requires Progress(enc.out, enc.comma, entries, done) && done < |entries|
    requires entries[done] == Entry(key, Arr([UInt(a), UInt(b)]))
    modifies enc
    ensures Progress(enc.out, enc.comma, entries, done + 1)
  {
    ProgressStep(enc.St(), entries, done);
    StreamedArray(enc.St(), key, a, b);
    enc.WriteKey(key);
    enc.StartArray();
    enc.WriteElement(UInt(a));
    enc.WriteElement(UInt(b));
    enc.FinishArray();
  }

  /** The calls for the fields that may be left out. */
  method PutOptional(enc: Encoder, p: Packet, ghost entries: seq<Entry>)
    requires Progress(enc.out, enc.comma, entries, 3) && entries == Entries(p)
    modifies enc
    ensures Progress(enc.out, enc.comma, entries, |entries|)
  {
    ghost var done := 3;
    if p.uid != 0 {
      PutNumber(enc, entries, done, "uid", p.uid);
      done := done + 1;
    }
    if !IsNan(p.ppm) {
      PutNumber(enc, entries, done, "ppm", p.ppm);
      done := done + 1;
    }
  }

  /** The calls of `ccp_json_write_uint64` write the record's text. */
  method WriteUint64(enc: Encoder, p: Packet)
    requires enc.St() == State("", false)
    modifies enc
    ensures enc.out == Text(p) && !enc.comma
  {
    ghost var entries := Entries(p);
    enc.StartObject();
    ProgressStart(entries);
    PutNumber(enc, entries, 0, "utime", p.utime);
    PutPair(enc, entries, 1, "ccp", p.ccp0, p.ccp1);
    PutNumber(enc, entries, 2, "seq", p.seqno);
    PutOptional(enc, p, entries);
    ProgressEnd(enc.St(), entries);
    enc.FinishObject();
    enc.comma := false;
  }

  // ----- The line buffer -----

  const BUFSIZE := 128

  /** The number of characters up to and including the first terminator. */
  function Cut(data: string, i: nat): (n: nat)
    requires i <= |data|
    ensures i <= n <= |data| && (i < |data| ==> i < n)
    ensures forall k :: i <= k < n - 1 ==> data[k] != NUL
    ensures n < |data| ==> n > 0 && data[n - 1] == NUL
    decreases |data| - i
  {
    if i == |data| then i else if data[i] == NUL then i + 1 else Cut(data, i + 1)
  }

  /** The buffer after characters are written from index `at`, which wraps around. */
  function Spread(buf: string, at: nat, data: string): (r: string)
    requires |buf| == BUFSIZE
    ensures |r| == BUFSIZE
    decreases |data|
  {
    if data == [] then buf else Spread(buf[at % BUFSIZE := data[0]], at + 1, data[1..])
  }

  lemma {:induction false} SpreadOneMore(buf: string, at: nat, data: string, n: nat)
    requires |buf| == BUFSIZE && n < |data|
    ensures Spread(buf, at, data[..n + 1]) == Spread(buf, at, data[..n])[(at + n) % BUFSIZE := data[n]]
    decreases n
  {
    if n == 0 {
      assert data[..1][1..] == [];
    } else {
      assert data[..n + 1][1..] == data[1..][..n] && data[..n][1..] == data[1..][..n - 1];
      SpreadOneMore(buf[at % BUFSIZE := data[0]], at + 1, data[1..], n - 1);
    }
  }

  /** Before the end of the buffer the characters stand where they were put. */
  lemma {:induction false} SpreadInside(buf: string, at: nat, data: string)
    requires |buf| == BUFSIZE && at + |data| <= BUFSIZE
    ensures Spread(buf, at, data) == buf[..at] + data + buf[at + |data|..]
    decreases |data|
  {
    if data == [] {
    } else {
      SpreadInside(buf[at % BUFSIZE := data[0]], at + 1, data[1..]);
    }
  }

  /**
   `ccp_write_line`.  The index counts on past the end of the buffer while the characters wrap
   around; the last test then reads a byte behind the buffer, and `beyond` says whether it is 0.
   */
  method WriteLine(iobuf: array<char>, idx: U16, data: string, beyond: bool) returns (next: U16)
    requires iobuf.Length == BUFSIZE
    modifies iobuf
    ensures var n := Cut(data, 0);
            var end := (idx + n) % TWO16;
            && iobuf[..] == Spread(old(iobuf[..]), idx, data[..n])
            && next == if (if 0 < end <= BUFSIZE then iobuf[end - 1] == NUL else beyond) then 0 else end
  {
    next := idx;
    ghost var (n, was) := (Cut(data, 0), iobuf[..]);
    var i := 0;
    while i < |data|
      invariant 0 <= i <= n && next == (idx + i) % TWO16 && (forall k :: 0 <= k < i ==> data[k] != NUL)
      invariant iobuf[..] == Spread(was, idx, data[..i])
    {
      SpreadOneMore(was, idx, data, i);
      Advance(idx + i, next);
      iobuf[next % BUFSIZE] := data[i];
      next := (next + 1) % TWO16;
      i := i + 1;
      if data[i - 1] == NUL { break; }
    }
    assert i == n;
    if (if 0 < next <= BUFSIZE then iobuf[next - 1] == NUL else beyond) { next := 0; }
  }

  lemma Advance(count: nat, idx: nat)
    requires idx == count % TWO16
    ensures (idx + 1) % TWO16 == (count + 1) % TWO16 && idx % BUFSIZE == count % BUFSIZE
  {
    var turns := count / TWO16;
    assert count == TWO16 * turns + idx;
    assert count / BUFSIZE == 512 * turns + idx / BUFSIZE;
    assert (count + 1) / TWO16 == if idx + 1 == TWO16 then turns + 1 else turns;
  }

  lemma NulFreeConcat(a: string, b: string)
    requires NulFree(a) && NulFree(b)
    ensures NulFree(a + b)
  {}

  predicate Numeric(v: Value) {
    v.UInt? || (v.Arr? && |v.elems| == 2 && v.elems[0].UInt? && v.elems[1].UInt?)
  }

  lemma NumericNulFree(v: Value)
    requires Numeric(v)
    ensures NulFree(Encode(v, false).0)
  {
    if v.Arr? {
      PairText(v.elems[0].u, v.elems[1].u);
      assert v.elems == [UInt(v.elems[0].u), UInt(v.elems[1].u)];
    }
  }

  lemma {:induction false} EntriesNulFree(entries: seq<Entry>, flag: bool)
    requires forall i :: 0 <= i < |entries| ==> Numeric(entries[i].value) && NulFree(entries[i].key)
    ensures NulFree(EncodeEntries(entries, flag).0)
    decreases |entries|
  {
    if entries == [] {
    } else {
      var e := entries[0];
      NumericNulFree(e.value);
      EntriesNulFree(entries[1..], true);
      NulFreeConcat(CommaIf(flag) + KeyText(e.key), Encode(e.value, false).0);
      NulFreeConcat(CommaIf(flag) + KeyText(e.key) + Encode(e.value, false).0, EncodeEntries(entries[1..], true).0);
    }
  }

  lemma TextNulFree(p: Packet)
    ensures NulFree(Text(p)) && |Text(p)| > 0
  {
    EntriesNulFree(Entries(p), false);
  }

  /** The buffer holds the line and its terminator. */
  predicate HoldsLine(buf: string, line: string) {
    |line| < |buf| && buf[..|line|] == line && buf[|line|] == NUL
  }

  /** The digits of a field, or of an optional field with its key. */
  function Width(n: nat): nat { |Decimal(n)| }

  /** The digits in the record, where `uid` and `ppm` count eight more for their keys. */
  function Digits(p: Packet): nat {
    Width(p.utime) + Width(p.ccp0) + Width(p.ccp1) + Width(p.seqno)
    + (if p.uid != 0 then 8 + Width(p.uid) else 0) + (if !IsNan(p.ppm) then 8 + Width(p.ppm) else 0)
  }

  const MAX_DIGITS := 97

  /** One more entry in the text. */
  lemma EntriesLength(e: Entry, rest: seq<Entry>, flag: bool)
    ensures |EncodeEntries([e] + rest, flag).0|
         == (if flag then 1 else 0) + |e.key| + 4 + |Encode(e.value, false).0| + |EncodeEntries(rest, true).0|
  {
    assert ([e] + rest)[1..] == rest;
  }

  lemma FixedLength(p: Packet, rest: seq<Entry>)
    ensures |EncodeEntries(FixedEntries(p) + rest, false).0|
         == 28 + Width(p.utime) + Width(p.ccp0) + Width(p.ccp1) + Width(p.seqno) + |EncodeEntries(rest, true).0|
  {
    var f := FixedEntries(p);
    assert f + rest == [f[0]] + ([f[1]] + ([f[2]] + rest));
    PairText(p.ccp0, p.ccp1);
    EntriesLength(f[0], [f[1]] + ([f[2]] + rest), false);
    EntriesLength(f[1], [f[2]] + rest, true);
    EntriesLength(f[2], rest, true);
  }

  lemma OptionalLength(p: Packet)
    ensures |EncodeEntries(Optional(p), true).0|
         == (if p.uid != 0 then 8 + Width(p.uid) else 0) + (if !IsNan(p.ppm) then 8 + Width(p.ppm) else 0)
  {
    if !IsNan(p.ppm) {
      var e := Entry("ppm", UInt(p.ppm));
      assert [e] + [] == [e];
      EntriesLength(e, [], true);
    }
    if p.uid != 0 {
      EntriesLength(Entry("uid", UInt(p.uid)), PpmEntries(p), true);
    } else {
      assert Optional(p) == PpmEntries(p);
    }
  }

  /** The length of the record's text, for every record. */
  lemma TextLength(p: Packet)
    ensures |Text(p)| == 30 + Digits(p)
  {
    FixedLength(p, Optional(p));
    OptionalLength(p);
  }

  /** A text and then a terminator, within the buffer. */
  lemma LineStands(buf: string, text: string, nul: string)
    requires |buf| == BUFSIZE && 0 < |text| < BUFSIZE && nul == [NUL]
    ensures var mid := Spread(buf, 0, text);
            mid[|text| - 1] == text[|text| - 1] && HoldsLine(Spread(mid, |text|, nul), text)
  {
    SpreadInside(buf, 0, text);
    var mid := Spread(buf, 0, text);
    SpreadInside(mid, |text|, nul);
    assert mid == text + buf[|text|..];
  }

  lemma CutNulFree(text: string, i: nat)
    requires NulFree(text) && i <= |text|
    ensures Cut(text, i) == |text|
    decreases |text| - i
  {
    if i == |text| {
    } else {
      CutNulFree(text, i + 1);
    }
  }

  lemma OneNul(nul: string)
    requires nul == [NUL]
    ensures Cut(nul, 0) == 1 && nul[..1] == nul
  {}

  /** A text, then its terminator: the buffer holds the line exactly if there is room for both. */
  method WriteTerminated(iobuf: array<char>, text: string, beyond: bool) returns (idx: U16)
    requires iobuf.Length == BUFSIZE && NulFree(text) && text != []
    modifies iobuf
    ensures HoldsLine(iobuf[..], text) <==> |text| < BUFSIZE
    ensures |text| < BUFSIZE ==> idx == 0
  {
    CutNulFree(text, 0);
    ghost var start := iobuf[..];
    assert text[..|text|] == text;
    idx := WriteLine(iobuf, 0, text, beyond);
    var nul := [NUL];
    OneNul(nul);
    if |text| < BUFSIZE {
      LineStands(start, text, nul);
      assert idx == |text|;
    }
    idx := WriteLine(iobuf, idx, nul, beyond);
  }

  /**
   `ccp_json_write_uint64`: afterwards the buffer holds the record's line if and only if the
   record has at most `MAX_DIGITS` digits; then the index is back at the start.
   */
  method WriteRecord(iobuf: array<char>, p: Packet, beyond: bool) returns (idx: U16)
    requires iobuf.Length == BUFSIZE && InRange(p)
    modifies iobuf
    ensures HoldsLine(iobuf[..], Text(p)) <==> Digits(p) <= MAX_DIGITS
    ensures Digits(p) <= MAX_DIGITS ==> idx == 0
  {
    var enc := new Encoder();
    WriteUint64(enc, p);
    TextNulFree(p);
    TextLength(p);
    idx := WriteTerminated(iobuf, enc.out, beyond);
  }

  /** A record without `uid` or without `ppm` always fits. */
  lemma ShortRecord(p: Packet)
    requires InRange(p) && (p.uid == 0 || IsNan(p.ppm))
    ensures Digits(p) <= MAX_DIGITS
  {
    DecimalFits(p.utime);
    DecimalFits(p.ccp0);
    DecimalFits(p.ccp1);
    DecimalFits(p.ppm);
    assert TenTo(3) == 1000 && TenTo(10) == 10_000_000_000;
    DecimalLength(p.seqno, 3);
    DecimalLength(p.uid, 10);
  }

  /** Not every other one does. */
  lemma LongRecord()
    ensures var big := U64_LIMIT - 1;
            var p := Packet(big, 255, TWO32 - 1, big, big, 0xFFEF_FFFF_FFFF_FFFF);
            InRange(p) && Digits(p) > MAX_DIGITS
  {
    var big := U64_LIMIT - 1;
    assert TenTo(4) == 10_000;
    assert TenTo(9) == 1_000_000_000;
    assert TenTo(14) == 100_000_000_000_000;
    assert TenTo(19) == 10_000_000_000_000_000_000;
    DecimalAtLeast(big, 20);
    DecimalAtLeast(0xFFEF_FFFF_FFFF_FFFF, 20);
  }

  lemma {:induction false} DecimalAtLeast(n: nat, k: nat)
    requires k > 0 && n >= TenTo(k - 1)
    ensures |Decimal(n)| >= k
  {
    if k == 1 {
    } else {
      assert TenTo(k - 1) == 10 * TenTo(k - 2) && TenTo(k - 2) >= 1;
      DecimalAtLeast(n / 10, k - 1);
    }
  }

  // ----- Reading -----

  /** The record's memory from `utime` to `ppm`, in 32-bit words, low word first. */
  type Memory = m: seq<nat> | |m| == 12 && forall i :: 0 <= i < 12 ==> m[i] < TWO32
    witness [0, 0, 0, 0, 0, 0, 0, 0, 0, 0, 0, 0]

  // Word offsets of the fields; `seq` is the low byte of its word.
  const UTIME := 0
  const SEQ := 2
  const UID := 3
  const CCP := 4
  const COUNT := 8
  const PPM := 10

  /** A 64-bit store. */
  function Put(m: Memory, at: nat, v: nat): Memory
    requires at < 11 && v < U64_LIMIT
  {
    m[at := v % TWO32][at + 1 := v / TWO32]
  }

  function Get(m: Memory, at: nat): nat
    requires at < 11
  {
    m[at] + TWO32 * m[at + 1]
  }

  function Fields(m: Memory): Packet {
    Packet(Get(m, UTIME), m[SEQ] % 256, m[UID], Get(m, CCP), Get(m, CCP + 2), Get(m, PPM))
  }

  /** An array is stored from its first element on, with the number of its elements. */
  lemma ArrayEffect(m: Memory, elems: seq<Stored>, attr: nat)
    requires |elems| <= 2 && forall i :: 0 <= i < |elems| ==> elems[i].VUInt? && elems[i].u < U64_LIMIT
    ensures
      var r := Effect(m, Write(attr, VArr(elems)));
      && r[COUNT] == |elems| && (forall i :: 0 <= i < |elems| ==> Get(r, CCP + 2 * i) == elems[i].u)
      && (|elems| < 2 ==> Get(r, CCP + 2) == Get(m, CCP + 2)) && (elems == [] ==> Get(r, CCP) == Get(m, CCP))
      && forall i :: 0 <= i < |m| && (i < CCP || i > COUNT) ==> r[i] == m[i]
  {}

  /** Whatever number the text has for `seq`, the field takes its low byte, and `uid` its high half. */
  lemma SeqLowByte(m: Memory, v: nat)
    requires v < U64_LIMIT
    ensures var f := Fields(Put(m, SEQ, v));
            f.seqno < 256 && (v - f.seqno) % 256 == 0 && f.uid == v / TWO32 && f.utime == Get(m, UTIME)
  {
    LowByte(v, v / TWO32, v % TWO32);
  }

  lemma LowByte(v: nat, q: nat, r: nat)
    requires v == TWO32 * q + r
    ensures (v - r % 256) % 256 == 0
  {
    assert v - r % 256 == 256 * (0x100_0000 * q + r / 256);
  }

  /** All attributes are stored as 64-bit integers, whatever the size of the field. */
  function Template(): seq<Spec> {
    [Spec("utime", TUInt, None), Spec("seq", TUInt, None), Spec("uid", TUInt, None),
     Spec("ccp", TArr(EUInt, 2), None), Spec("ppm", TUInt, None)]
  }

  function Offset(attr: nat): nat {
    match attr
    case 0 => UTIME
    case 1 => SEQ
    case 2 => UID
    case 3 => CCP
    case _ => PPM
  }

  /** What one store of the decoder does to the record. */
  function Effect(m: Memory, w: Write): Memory {
    match w.value
    case VUInt(u) => if u < U64_LIMIT then Put(m, Offset(w.attr), u) else m
    case VArr(elems) =>
      if |elems| == 2 && elems[0].VUInt? && elems[1].VUInt? && elems[0].u < U64_LIMIT && elems[1].u < U64_LIMIT
      then Put(Put(m, CCP, elems[0].u), CCP + 2, elems[1].u)[COUNT := 2]
      else if |elems| == 1 && elems[0].VUInt? && elems[0].u < U64_LIMIT
      then Put(m, CCP, elems[0].u)[COUNT := 1]
      else if elems == [] then m[COUNT := 0]
      else m
    case _ => m
  }

  function Effects(m: Memory, store: Store): Memory
    decreases |store|
  {
    if store == [] then m else Effects(Effect(m, store[0]), store[1..])
  }

  const CLEARED: Memory := [0, 0, 0, 0, 0, 0, 0, 0, 0, 0, 0, 0]

  /** `ccp_json_read_uint64`. */
  method ReadUint64(line: string) returns (rc: nat, m: Memory)
    ensures var r := ReadObject(Template(), line);
            rc == r.rc && m == Effects(CLEARED, r.store)
  {
    var d := new Decoder(line);
    var store;
    rc, store := d.ReadObjectInto(Template());
    m := CLEARED;
    var i := 0;
    assert store[0..] == store;
    while i < |store|
      invariant 0 <= i <= |store| && Effects(m, store[i..]) == Effects(CLEARED, store)
    {
      assert store[i..][0] == store[i] && store[i..][1..] == store[i + 1..];
      m := Effect(m, store[i]);
      i := i + 1;
    }
    assert store[i..] == [];
  }

  // ----- Round trip -----

  lemma Names()
    ensures DistinctNames(Template())
    ensures FindAttr(Template(), "utime", 0) == 0 && FindAttr(Template(), "seq", 0) == 1
    ensures FindAttr(Template(), "uid", 0) == 2 && FindAttr(Template(), "ccp", 0) == 3
    ensures FindAttr(Template(), "ppm", 0) == 4
  {
    var t := Template();
    assert "seq"[0] != "uid"[0] && "seq"[0] != "ccp"[0] && "seq"[0] != "ppm"[0];
    assert "uid"[0] != "ccp"[0] && "uid"[0] != "ppm"[0] && "ccp"[0] != "ppm"[0];
    assert |"utime"| != |"seq"|;
    FindDistinct(t, "utime", 0, 0);
    FindDistinct(t, "seq", 0, 1);
    FindDistinct(t, "uid", 0, 2);
    FindDistinct(t, "ccp", 0, 3);
    FindDistinct(t, "ppm", 0, 4);
  }

  lemma NumberFits(key: string, u: nat, attr: nat)
    requires u < U64_LIMIT && attr < 5 && Template()[attr] == Spec(key, TUInt, None)
    requires FindAttr(Template(), key, 0) == attr
    ensures FitsTemplate(Template(), Entry(key, UInt(u)))
  {}

  lemma PairFits(a: nat, b: nat)
    requires a < U64_LIMIT && b < U64_LIMIT && FindAttr(Template(), "ccp", 0) == 3
    ensures FitsTemplate(Template(), Entry("ccp", Arr([UInt(a), UInt(b)])))
  {
    assert Template()[3].kind == TArr(EUInt, 2);
  }

  lemma EntriesFit(p: Packet)
    requires InRange(p)
    ensures forall i :: 0 <= i < |Entries(p)| ==> FitsTemplate(Template(), Entries(p)[i])
  {
    Names();
    NumberFits("utime", p.utime, 0);
    PairFits(p.ccp0, p.ccp1);
    NumberFits("seq", p.seqno, 1);
    NumberFits("uid", p.uid, 2);
    NumberFits("ppm", p.ppm, 4);
    forall e | e in Entries(p) ensures FitsTemplate(Template(), e) {
      assert e in FixedEntries(p) || e == Entry("uid", UInt(p.uid)) || e == Entry("ppm", UInt(p.ppm));
    }
  }

  /** Reading `e` first stores its value at attribute `attr`. */
  lemma FirstStore(m: Memory, e: Entry, attr: nat, rest: seq<Entry>)
    requires FindAttr(Template(), e.key, 0) == attr
    ensures Effects(m, Writes(Template(), [e] + rest))
         == Effects(Effect(m, Write(attr, Meaning(e.value))), Writes(Template(), rest))
  {
    var w := Writes(Template(), [e] + rest);
    assert ([e] + rest)[1..] == rest;
    assert w == [Write(attr, Meaning(e.value))] + Writes(Template(), rest);
    assert w[1..] == Writes(Template(), rest);
  }

  lemma Restored(v: nat)
    requires v < U64_LIMIT
    ensures v % TWO32 + TWO32 * (v / TWO32) == v
  {}

  /** The record after the stores of `utime` and `ccp`, `seq`, `uid` and `ppm`, in this order. */
  function AfterUtime(p: Packet): Memory
    requires InRange(p)
  {
    [p.utime % TWO32, p.utime / TWO32, 0, 0, 0, 0, 0, 0, 0, 0, 0, 0]
  }

  function AfterPair(p: Packet): Memory
    requires InRange(p)
  {
    [p.utime % TWO32, p.utime / TWO32, 0, 0,
     p.ccp0 % TWO32, p.ccp0 / TWO32, p.ccp1 % TWO32, p.ccp1 / TWO32, 2, 0, 0, 0]
  }

  function AfterSeq(p: Packet): Memory
    requires InRange(p)
  {
    [p.utime % TWO32, p.utime / TWO32, p.seqno, 0,
     p.ccp0 % TWO32, p.ccp0 / TWO32, p.ccp1 % TWO32, p.ccp1 / TWO32, 2, 0, 0, 0]
  }

  /** The store to `uid` clears the low word of `ccp[0]`. */
  function AfterUid(p: Packet): Memory
    requires InRange(p)
  {
    [p.utime % TWO32, p.utime / TWO32, p.seqno, p.uid,
     if p.uid != 0 then 0 else p.ccp0 % TWO32, p.ccp0 / TWO32, p.ccp1 % TWO32, p.ccp1 / TWO32, 2, 0, 0, 0]
  }

  function AfterPpm(p: Packet): Memory
    requires InRange(p)
  {
    var ppm := if IsNan(p.ppm) then 0 else p.ppm;
    [p.utime % TWO32, p.utime / TWO32, p.seqno, p.uid,
     if p.uid != 0 then 0 else p.ccp0 % TWO32, p.ccp0 / TWO32, p.ccp1 % TWO32, p.ccp1 / TWO32, 2, 0,
     ppm % TWO32, ppm / TWO32]
  }

  lemma UtimeStored(p: Packet)
    requires InRange(p)
    ensures Effect(CLEARED, Write(0, VUInt(p.utime))) == AfterUtime(p)
  {}

  lemma PairStored(p: Packet)
    requires InRange(p)
    ensures Effect(AfterUtime(p), Write(3, VArr([VUInt(p.ccp0), VUInt(p.ccp1)]))) == AfterPair(p)
  {
    var m := Put(AfterUtime(p), CCP, p.ccp0);
    assert m[CCP] == p.ccp0 % TWO32 && m[CCP + 1] == p.ccp0 / TWO32;
  }

  lemma SeqStored(p: Packet)
    requires InRange(p)
    ensures Effect(AfterPair(p), Write(1, VUInt(p.seqno))) == AfterSeq(p)
  {
    assert p.seqno % TWO32 == p.seqno && p.seqno / TWO32 == 0;
  }

  lemma UidStored(p: Packet)
    requires InRange(p) && p.uid != 0
    ensures Effect(AfterSeq(p), Write(2, VUInt(p.uid))) == AfterUid(p)
  {
    assert p.uid % TWO32 == p.uid && p.uid / TWO32 == 0;
  }

  lemma PpmStored(p: Packet)
    requires InRange(p) && !IsNan(p.ppm)
    ensures Effect(AfterUid(p), Write(4, VUInt(p.ppm))) == AfterPpm(p)
  {}

  lemma PairMeaning(a: nat, b: nat)
    ensures Meaning(Arr([UInt(a), UInt(b)])) == VArr([VUInt(a), VUInt(b)])
  {
    var elems := [UInt(a), UInt(b)];
    assert elems[1..] == [UInt(b)] && elems[1..][1..] == [];
    assert Meanings(elems[1..]) == [VUInt(b)] + Meanings(elems[1..][1..]) == [VUInt(b)];
    assert Meanings(elems) == [VUInt(a)] + Meanings(elems[1..]) == [VUInt(a), VUInt(b)];
  }

  /** The stores that every record makes. */
  lemma FixedPart(p: Packet, rest: seq<Entry>)
    requires InRange(p)
    ensures Effects(CLEARED, Writes(Template(), FixedEntries(p) + rest))
         == Effects(AfterSeq(p), Writes(Template(), rest))
  {
    var f := FixedEntries(p);
    assert f + rest == [f[0]] + ([f[1]] + ([f[2]] + rest));
    Names();
    FirstStore(CLEARED, f[0], 0, [f[1]] + ([f[2]] + rest));
    UtimeStored(p);
    FirstStore(AfterUtime(p), f[1], 3, [f[2]] + rest);
    PairMeaning(p.ccp0, p.ccp1);
    PairStored(p);
    FirstStore(AfterPair(p), f[2], 1, rest);
    SeqStored(p);
  }

  lemma UidPart(p: Packet)
    requires InRange(p)
    ensures Effects(AfterSeq(p), Writes(Template(), Optional(p)))
         == Effects(AfterUid(p), Writes(Template(), PpmEntries(p)))
  {
    if p.uid != 0 {
      Names();
      FirstStore(AfterSeq(p), Entry("uid", UInt(p.uid)), 2, PpmEntries(p));
      UidStored(p);
    } else {
      assert Optional(p) == PpmEntries(p);
    }
  }

  lemma PpmPart(p: Packet)
    requires InRange(p)
    ensures Effects(AfterUid(p), Writes(Template(), PpmEntries(p))) == AfterPpm(p)
  {
    if !IsNan(p.ppm) {
      var e := Entry("ppm", UInt(p.ppm));
      assert [e] + [] == [e];
      Names();
      FirstStore(AfterUid(p), e, 4, []);
      PpmStored(p);
    }
  }

  /** What a record reads back as. */
  function ReadBack(p: Packet): Packet {
    p.(ccp0 := if p.uid != 0 then p.ccp0 - p.ccp0 % TWO32 else p.ccp0, ppm := if IsNan(p.ppm) then 0 else p.ppm)
  }

  lemma FieldsOfStored(p: Packet)
    requires InRange(p)
    ensures Fields(AfterPpm(p)) == ReadBack(p)
  {
    Restored(p.utime);
    Restored(p.ccp0);
    Restored(p.ccp1);
    Restored(if IsNan(p.ppm) then 0 else p.ppm);
  }

  lemma StoredFields(p: Packet)
    requires InRange(p)
    ensures Fields(Effects(CLEARED, Writes(Template(), Entries(p)))) == ReadBack(p)
  {
    FixedPart(p, Optional(p));
    UidPart(p);
    PpmPart(p);
    FieldsOfStored(p);
  }

  /**
   Reading the written text succeeds.  Every field comes back except that a NaN `ppm`, which is
   not written, reads as 0, and that a nonzero `uid` costs the low half of `ccp[0]`.
   */
  lemma CcpReadBack(p: Packet)
    requires InRange(p)
    ensures var r := ReadObject(Template(), Text(p));
            r.rc == OK && Fields(Effects(CLEARED, r.store)) == ReadBack(p)
  {
    Names();
    EntriesFit(p);
    RoundTrip(Template(), Entries(p));
    assert Defaults(Template(), 0) == [] by { NoDefaults(0); }
    assert [] + Writes(Template(), Entries(p)) == Writes(Template(), Entries(p));
    StoredFields(p);
  }

  lemma {:induction false} NoDefaults(i: nat)
    requires i <= |Template()|
    ensures Defaults(Template(), i) == []
    decreases |Template()| - i
  {
    if i == |Template()| {
    } else {
      NoDefaults(i + 1);
    }
  }

  /** The record survives the round trip exactly under this condition. */
  lemma CcpRoundTripIff(p: Packet)
    requires InRange(p)
    ensures Fields(Effects(CLEARED, ReadObject(Template(), Text(p)).store)) == p
            <==> !IsNan(p.ppm) && (p.uid == 0 || p.ccp0 % TWO32 == 0)
  {
    CcpReadBack(p);
  }
}
