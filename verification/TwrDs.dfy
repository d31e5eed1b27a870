/**
 One device of a double-sided two-way ranging exchange: the ring of frames and the
 semaphore of lib/uwb_rng, and the four message cases of lib/twr_ds (build without
 wireless clock synchronisation).
 */
module TwrDs {
  import opened Common
  import opened RngMath

  const CODE_SS_TWR: U16 := 0x110
  const CODE_SS_TWR_ACK_END: U16 := 0x11b
  const CODE_DS_TWR: U16 := 0x120
  const CODE_DS_TWR_T1: U16 := 0x121
  const CODE_DS_TWR_T2: U16 := 0x122
  const CODE_DS_TWR_FINAL: U16 := 0x123
  const CODE_DS_TWR_EXT_END: U16 := 0x129

  /** The fields of a ring cell that the exchange uses. */
  datatype Frame = Frame(seqNum: U8, dst: U16, src: U16, code: U16,
                         reception: U32, transmission: U32, request: U32, response: U32)

  /** A frame on the air.  The three forms are the three wire lengths in use. */
  datatype Wire =
    | Short(seqNum: U8, dst: U16, src: U16, code: U16)
    | Medium(seqNum: U8, dst: U16, src: U16, code: U16, reception: U32, transmission: U32)
    | Long(seqNum: U8, dst: U16, src: U16, code: U16, reception: U32, transmission: U32,
           request: U32, response: U32)

  /** Copying received bytes over the start of a cell leaves the rest of the cell alone. */
  function Load(cell: Frame, w: Wire): Frame {
    match w
    case Short(q, d, s, c) => cell.(seqNum := q, dst := d, src := s, code := c)
    case Medium(q, d, s, c, r, t) =>
      cell.(seqNum := q, dst := d, src := s, code := c, reception := r, transmission := t)
    case Long(q, d, s, c, r, t, rq, rs) => Frame(q, d, s, c, r, t, rq, rs)
  }

  function ShortOf(f: Frame): Wire { Short(f.seqNum, f.dst, f.src, f.code) }
  function MediumOf(f: Frame): Wire { Medium(f.seqNum, f.dst, f.src, f.code, f.reception, f.transmission) }
  function LongOf(f: Frame): Wire {
    Long(f.seqNum, f.dst, f.src, f.code, f.reception, f.transmission, f.request, f.response)
  }

  /** Settings of one device; durations are in units of 2^16 ticks. */
  datatype Config = Config(address: U16, txHoldoff: U32, shr: U16, dataShort: U16, dataMedium: U16, dataLong: U16,
                           antenna: U16)

  function DataDuration(c: Config, w: Wire): U16 {
    match w case Short(_, _, _, _) => c.dataShort
            case Medium(_, _, _, _, _, _) => c.dataMedium
            case Long(_, _, _, _, _, _, _, _) => c.dataLong
  }

  /** The start time programmed for a reply to a frame received at `ts`. */
  function ReplyDelay(c: Config, ts: U64, w: Wire): U64 {
    (ts + (c.txHoldoff + c.shr + DataDuration(c, w)) * TWO16) % TWO64
  }

  /** The time announced for that reply: nine low bits dropped, antenna delay added. */
  function AnnouncedTime(c: Config, delay: U64): U64 {
    delay % TWO40 - delay % 512 + c.antenna
  }

  /** What the radio does with a programmed start time: its 40-bit counter at the marker. */
  function MarkerTime(c: Config, delay: U64): int {
    (delay - delay % 512 + c.antenna) % TWO40
  }

  /**
   From the end of a received frame, its data after the marker, to the start of the reply, its preamble
   before the marker: the radio is silent for the holdoff and the antenna delay, less what the grid cuts off.
   */
  lemma ReplyGap(c: Config, ts: U64, w: Wire)
    requires 0 < c.txHoldoff < 0xff_ffff
    ensures
      var data := if w.Short? then c.dataShort else if w.Medium? then c.dataMedium else c.dataLong;
      var gap := (MarkerTime(c, ReplyDelay(c, ts, w)) - c.shr * TWO16 - (ts + data * TWO16)) % TWO40;
      c.txHoldoff * TWO16 + c.antenna - 512 < gap <= c.txHoldoff * TWO16 + c.antenna
  {
    var data := DataDuration(c, w);
    var delay := ReplyDelay(c, ts, w);
    var turns := (ts + (c.txHoldoff + c.shr + data) * TWO16) / TWO64;
    var marker := delay - delay % 512 + c.antenna;
    Modulo40(MarkerTime(c, delay) - c.shr * TWO16 - (ts + data * TWO16), c.txHoldoff * TWO16 + c.antenna - delay % 512,
             - turns * 0x100_0000 - marker / TWO40);
  }

  lemma Modulo40(x: int, y: int, k: int)
    requires x == y + TWO40 * k && 0 <= y < TWO40
    ensures x % TWO40 == y
  {}

  /** The announced and the actual time agree in the 32 bits that are exchanged. */
  lemma AnnouncedIsActual(c: Config, delay: U64)
    ensures Lo32(AnnouncedTime(c, delay)) == Lo32(MarkerTime(c, delay))
  {
    var hi := delay / TWO40;
    var x := delay - delay % 512 + c.antenna;
    assert x == AnnouncedTime(c, delay) + hi * 256 * TWO32;
    assert x == MarkerTime(c, delay) + x / TWO40 * 256 * TWO32;
    SameLo32(AnnouncedTime(c, delay), MarkerTime(c, delay), x / TWO40 * 256 - hi * 256);
  }

  lemma SameLo32(x: int, y: int, k: int)
    requires x == y + k * TWO32
    ensures Lo32(x) == Lo32(y)
  {
    assert x / TWO32 == y / TWO32 + k;
  }

  /** A transmission handed to the radio. */
  datatype Tx = Tx(wire: Wire, delay: U64)

  /** The ranging instance of one device; `busy` is a semaphore count of zero. */
  datatype Device = Device(cfg: Config, idx: U16, seqNum: U16, code: U16, busy: bool, completeAfterTx: bool,
                           ring: seq<Frame>)

  ghost predicate Valid(d: Device) {
    |d.ring| > 0
  }

  /** Neighbouring indices are neighbouring cells, also where the 16-bit index wraps (see `NextCellIff`). */
  ghost predicate Aligned(d: Device) {
    |d.ring| >= 2 && TWO16 % |d.ring| == 0
  }

  /** What a callback leaves behind: state, frame to send, completion callbacks called. */
  datatype Outcome = Outcome(dev: Device, sent: Option<Tx>, completed: bool)

  // ----- Ring arithmetic -----

  /** Cells are indexed by a 16-bit counter taken modulo the ring size. */
  function Cell(idx: int, n: nat): int
    requires n > 0
  {
    idx % n
  }

  function NextIdx(idx: U16): U16 { (idx + 1) % TWO16 }
  function PrevIdx(idx: U16): U16 { (idx - 1) % TWO16 }

  /**
   `frames[(idx+1)%nframes]` before the increment is the cell `frames[idx%nframes]` after
   it, for every 16-bit `idx`, if and only if the ring size divides 65536.
   */
  lemma NextCellIff(n: nat)
    requires n > 0
    ensures (forall idx: U16 :: Cell(NextIdx(idx), n) == Cell(idx + 1, n)) <==> TWO16 % n == 0
  {
    var last: U16 := 0xffff;
    assert Cell(NextIdx(last), n) == 0 && Cell(last + 1, n) == TWO16 % n;
    if TWO16 % n == 0 {
      forall idx: U16 ensures Cell(NextIdx(idx), n) == Cell(idx + 1, n) {
        if idx < last { assert NextIdx(idx) == idx + 1; }
      }
    }
  }

  /** In a ring whose size divides 65536 the previous index is one cell back, also at 0. */
  lemma PrevCell(idx: U16, n: nat)
    requires n > 0 && TWO16 % n == 0
    ensures NextIdx(PrevIdx(idx)) == idx
    ensures Cell(PrevIdx(idx) + 1, n) == Cell(idx, n)
    ensures PrevIdx(NextIdx(idx)) == idx
    ensures n >= 2 ==> Cell(PrevIdx(idx), n) != Cell(idx, n)
    ensures Cell(NextIdx(idx), n) == Cell(idx + 1, n)
  {
    NextCellIff(n);
    BackAndForth(idx);
    var prev: U16 := PrevIdx(idx);
    assert Cell(NextIdx(prev), n) == Cell(prev + 1, n);
    if n >= 2 {
      NeighboursDiffer(prev, n);
    }
  }

  lemma BackAndForth(idx: U16)
    ensures NextIdx(PrevIdx(idx)) == idx && PrevIdx(NextIdx(idx)) == idx
  {}

  lemma NeighboursDiffer(i: int, n: nat)
    requires n >= 2
    ensures Cell(i, n) != Cell(i + 1, n)
  {
    if Cell(i, n) == Cell(i + 1, n) {
      var (a, b) := (i / n, (i + 1) / n);
      assert i == a * n + i % n && i + 1 == b * n + (i + 1) % n;
      assert (b - a) * n == 1;
      NoUnitMultiple(b - a, n);
    }
  }

  lemma NoUnitMultiple(k: int, n: nat)
    requires n >= 2
    ensures k * n != 1
  {
    if k >= 1 { assert k * n >= n; } else { assert k * n <= 0; }
  }

  function CellAt(d: Device, idx: int): Frame
    requires |d.ring| > 0
  {
    d.ring[Cell(idx, |d.ring|)]
  }

  function PutAt(d: Device, idx: int, f: Frame): Device
    requires |d.ring| > 0
  {
    d.(ring := d.ring[Cell(idx, |d.ring|) := f])
  }

  // ----- The base layer -----

  /** `uwb_rng_request`: fills the next cell, does not advance the index. */
  function OnRequest(d: Device, dst: U16, startOk: bool): (o: Outcome)
    requires Valid(d)
    ensures |o.dev.ring| == |d.ring| && o.dev.cfg == d.cfg
  {
    var seqNum := (d.seqNum + 2) % TWO16;
    var f := CellAt(d, d.idx + 1).(seqNum := seqNum % 0x100, code := CODE_DS_TWR, src := d.cfg.address, dst := dst);
    var d1 := PutAt(d, d.idx + 1, f).(seqNum := seqNum, busy := startOk);
    Outcome(d1, if startOk then Some(Tx(ShortOf(f), 0)) else None, false)
  }

  /** `uwb_rng_listen`. */
  function OnListen(d: Device, startOk: bool): Device {
    d.(busy := startOk)
  }

  /** `rx_timeout_cb`. */
  function OnTimeout(d: Device): Device {
    d.(busy := false)
  }

  /** `tx_complete_cb`. */
  function OnTxComplete(d: Device): Outcome {
    if !d.busy || !(CODE_SS_TWR <= d.code <= CODE_DS_TWR_EXT_END) then Outcome(d, None, false)
    else Outcome(d.(busy := d.busy && !d.completeAfterTx, completeAfterTx := false), None, d.completeAfterTx)
  }

  /** The base layer's `rx_complete_cb`: the state, and whether extensions see the frame. */
  function OnRxBase(d: Device, w: Wire): (r: (Device, bool))
    requires Valid(d)
    ensures |r.0.ring| == |d.ring| && r.0.cfg == d.cfg
  {
    if !d.busy then (d, false)
    else
      var d1 := d.(code := w.code);
      if !(CODE_SS_TWR <= w.code <= CODE_DS_TWR_EXT_END) then (d1, true)
      else
        var d2 := PutAt(d1, d.idx + 1, Load(CellAt(d, d.idx + 1), w));
        if w.dst != d.cfg.address then (d2.(busy := false), false)
        else (d2.(idx := NextIdx(d.idx)), true)
  }

  // ----- The double-sided extension -----

  function StartReply(d: Device, tx: Tx, startOk: bool): Outcome {
    if startOk then Outcome(d, Some(tx), false) else Outcome(d.(busy := false), None, false)
  }

  /** Case DS_TWR, on the responder. */
  function OnDsRequest(d: Device, w: Wire, ts: U64, startOk: bool): (o: Outcome)
    requires Valid(d)
    ensures |o.dev.ring| == |d.ring| && o.dev.cfg == d.cfg
  {
    if !w.Short? then Outcome(d, None, false)
    else
      var delay := ReplyDelay(d.cfg, ts, w);
      var f0 := CellAt(d, d.idx);
      var f := f0.(reception := Lo32(ts), transmission := Lo32(AnnouncedTime(d.cfg, delay)),
                   dst := f0.src, src := d.cfg.address, code := CODE_DS_TWR_T1);
      StartReply(PutAt(d, d.idx, f), Tx(MediumOf(f), delay), startOk)
  }

  /** Case T1, on the initiator; `txTime` is the radio's last transmit stamp. */
  function OnDsT1(d: Device, w: Wire, ts: U64, txTime: U32, ldeError: bool, startOk: bool): (o: Outcome)
    requires Valid(d)
    ensures |o.dev.ring| == |d.ring| && o.dev.cfg == d.cfg
  {
    if ldeError || !w.Medium? then Outcome(d, None, false)
    else
      var delay := ReplyDelay(d.cfg, ts, w);
      var f := CellAt(d, d.idx).(request := txTime, response := Lo32(ts));
      var g := CellAt(d, d.idx + 1).(request := txTime, response := Lo32(ts), dst := f.src, src := d.cfg.address,
                                     seqNum := (f.seqNum + 1) % 0x100, code := CODE_DS_TWR_T2,
                                     reception := Lo32(ts), transmission := Lo32(AnnouncedTime(d.cfg, delay)));
      StartReply(PutAt(PutAt(d, d.idx, f), d.idx + 1, g), Tx(LongOf(g), delay), startOk)
  }

  /** Case T2, on the responder. */
  function OnDsT2(d: Device, w: Wire, ts: U64, txTime: U32, ldeError: bool, startOk: bool): (o: Outcome)
    requires Valid(d)
    ensures |o.dev.ring| == |d.ring| && o.dev.cfg == d.cfg
  {
    if ldeError || !w.Long? then Outcome(d, None, false)
    else
      var f0 := CellAt(d, d.idx);
      var prev := CellAt(d, PrevIdx(d.idx)).(request := f0.request, response := f0.response);
      var f := f0.(request := txTime, response := Lo32(ts), dst := f0.src, src := d.cfg.address,
                   code := CODE_DS_TWR_FINAL);
      var d1 := PutAt(PutAt(d, PrevIdx(d.idx), prev), d.idx, f);
      if startOk then Outcome(d1.(completeAfterTx := true), Some(Tx(LongOf(f), ReplyDelay(d.cfg, ts, w))), false)
      else Outcome(d1.(busy := false), None, true)
  }

  /** The extension's `rx_complete_cb`. */
  function OnRxDs(d: Device, w: Wire, ts: U64, txTime: U32, ldeError: bool, startOk: bool): (o: Outcome)
    requires Valid(d)
    ensures |o.dev.ring| == |d.ring| && o.dev.cfg == d.cfg
  {
    if !d.busy then Outcome(d, None, false)
    else if d.code == CODE_DS_TWR then OnDsRequest(d, w, ts, startOk)
    else if d.code == CODE_DS_TWR_T1 then OnDsT1(d, w, ts, txTime, ldeError, startOk)
    else if d.code == CODE_DS_TWR_T2 then OnDsT2(d, w, ts, txTime, ldeError, startOk)
    else if d.code == CODE_DS_TWR_FINAL then Outcome(d.(busy := false), None, true)
    else Outcome(d, None, false)
  }

  /** A received frame runs through both layers. */
  function OnRx(d: Device, w: Wire, ts: U64, txTime: U32, ldeError: bool, startOk: bool): (o: Outcome)
    requires Valid(d)
    ensures |o.dev.ring| == |d.ring| && o.dev.cfg == d.cfg
  {
    var (d1, forward) := OnRxBase(d, w);
    if forward then OnRxDs(d1, w, ts, txTime, ldeError, startOk) else Outcome(d1, None, false)
  }

  /** A short frame fills the four fields it has, a medium one two more, a long one all; the rest of the cell stays. */
  lemma LoadedFields(cell: Frame, w: Wire)
    ensures var f := Load(cell, w);
            && f.seqNum == w.seqNum && f.dst == w.dst && f.src == w.src && f.code == w.code
            && (w.Short? ==> ShortOf(f) == w && f.reception == cell.reception && f.transmission == cell.transmission)
            && (w.Medium? ==> MediumOf(f) == w)
            && (w.Long? ==> LongOf(f) == w)
            && (!w.Long? ==> f.request == cell.request && f.response == cell.response)
  {}

  /**
   A request goes out at once with the sequence number after the next, from the cell after the current
   one, which keeps the stamps it had; the current cell and the index stay.
   */
  lemma AskEffect(d: Device, dst: U16, startOk: bool)
    requires Aligned(d)
    ensures
      var o := OnRequest(d, dst, startOk);
      var (f, f0) := (CellAt(o.dev, d.idx + 1), CellAt(d, d.idx + 1));
      && ShortOf(f) == Short((d.seqNum + 2) % 0x100, dst, d.cfg.address, 0x120)
      && f.reception == f0.reception && f.transmission == f0.transmission
      && f.request == f0.request && f.response == f0.response
      && o.sent == (if startOk then Some(Tx(ShortOf(f), 0)) else None) && !o.completed
      && o.dev.idx == d.idx && CellAt(o.dev, d.idx) == CellAt(d, d.idx) && o.dev.seqNum == (d.seqNum + 2) % 0x1_0000
      && o.dev.busy == startOk && o.dev.completeAfterTx == d.completeAfterTx && o.dev.code == d.code
  {
    NeighboursDiffer(d.idx, |d.ring|);
  }

  // ----- What a received frame does to the ring -----

  /** A frame for a waiting device is stored in the next cell, which becomes the current one. */
  lemma StoredEffect(d: Device, w: Wire)
    requires Aligned(d) && d.busy && CODE_SS_TWR <= w.code <= CODE_DS_TWR_EXT_END && w.dst == d.cfg.address
    ensures
      var (d1, forward) := OnRxBase(d, w);
      && forward && d1.busy && d1.code == w.code && d1.idx == NextIdx(d.idx)
      && d1.completeAfterTx == d.completeAfterTx
      && CellAt(d1, d1.idx) == Load(CellAt(d, d.idx + 1), w)
      && CellAt(d1, PrevIdx(d1.idx)) == CellAt(d, d.idx)
      && PrevIdx(d1.idx) == d.idx && |d1.ring| == |d.ring|
  {
    PrevCell(d.idx, |d.ring|);
    PrevCell(NextIdx(d.idx), |d.ring|);
  }

  /** A request is answered from the cell it was stored in; no other cell changes. */
  lemma RequestEffect(d: Device, w: Wire, ts: U64, txTime: U32, ldeError: bool, startOk: bool)
    requires Aligned(d) && d.busy && w.Short? && w.code == CODE_DS_TWR && w.dst == d.cfg.address
    ensures
      var o := OnRx(d, w, ts, txTime, ldeError, startOk);
      var delay := ReplyDelay(d.cfg, ts, w);
      var f := CellAt(o.dev, o.dev.idx);
      && o.dev.idx == NextIdx(d.idx)
      && f.reception == Lo32(ts) && f.transmission == Lo32(AnnouncedTime(d.cfg, delay))
      && f.src == d.cfg.address && f.dst == w.src && f.code == CODE_DS_TWR_T1 && f.seqNum == w.seqNum
      && CellAt(o.dev, d.idx) == CellAt(d, d.idx)
      && o.sent == (if startOk then Some(Tx(MediumOf(f), delay)) else None)
      && !o.completed && o.dev.completeAfterTx == d.completeAfterTx && o.dev.busy == startOk
  {
    StoredEffect(d, w);
    PrevCell(NextIdx(d.idx), |d.ring|);
  }

  /** A first reply completes the received cell and prepares the next one. */
  lemma T1Effect(d: Device, w: Wire, ts: U64, txTime: U32, startOk: bool)
    requires Aligned(d) && d.busy && w.Medium? && w.code == CODE_DS_TWR_T1 && w.dst == d.cfg.address
    ensures
      var o := OnRx(d, w, ts, txTime, false, startOk);
      var delay := ReplyDelay(d.cfg, ts, w);
      var f := CellAt(o.dev, o.dev.idx);
      var g := CellAt(o.dev, o.dev.idx + 1);
      && o.dev.idx == NextIdx(d.idx)
      && f == Frame(w.seqNum, w.dst, w.src, w.code, w.reception, w.transmission, txTime, Lo32(ts))
      && g == Frame((w.seqNum + 1) % 0x100, w.src, d.cfg.address, CODE_DS_TWR_T2,
                    Lo32(ts), Lo32(AnnouncedTime(d.cfg, delay)), txTime, Lo32(ts))
      && o.sent == (if startOk then Some(Tx(LongOf(g), delay)) else None)
      && !o.completed && o.dev.completeAfterTx == d.completeAfterTx && o.dev.busy == startOk
  {
    StoredEffect(d, w);
    NeighboursDiffer(NextIdx(d.idx), |d.ring|);
  }

  /** The second message completes the previous cell and turns its own into the report. */
  lemma T2Effect(d: Device, w: Wire, ts: U64, txTime: U32, startOk: bool)
    requires Aligned(d) && d.busy && w.Long? && w.code == CODE_DS_TWR_T2 && w.dst == d.cfg.address
    ensures
      var o := OnRx(d, w, ts, txTime, false, startOk);
      var f := CellAt(o.dev, o.dev.idx);
      && o.dev.idx == NextIdx(d.idx)
      && CellAt(o.dev, PrevIdx(o.dev.idx)) == CellAt(d, d.idx).(request := w.request, response := w.response)
      && f == Frame(w.seqNum, w.src, d.cfg.address, CODE_DS_TWR_FINAL,
                    w.reception, w.transmission, txTime, Lo32(ts))
      && o.sent == (if startOk then Some(Tx(LongOf(f), ReplyDelay(d.cfg, ts, w))) else None)
      && o.completed == !startOk && o.dev.completeAfterTx == (d.completeAfterTx || startOk)
      && o.dev.busy == startOk && o.dev.code == CODE_DS_TWR_T2
  {
    StoredEffect(d, w);
    PrevCell(NextIdx(d.idx), |d.ring|);
  }

  /** The report is stored in the next cell, and the exchange is complete. */
  lemma FinalEffect(d: Device, w: Wire, ts: U64, txTime: U32, ldeError: bool, startOk: bool)
    requires Aligned(d) && d.busy && w.Long? && w.code == CODE_DS_TWR_FINAL && w.dst == d.cfg.address
    ensures
      var o := OnRx(d, w, ts, txTime, ldeError, startOk);
      && o.dev.idx == NextIdx(d.idx)
      && CellAt(o.dev, PrevIdx(o.dev.idx)) == CellAt(d, d.idx)
      && LongOf(CellAt(o.dev, o.dev.idx)) == w
      && o.sent.None? && o.completed && !o.dev.busy && o.dev.completeAfterTx == d.completeAfterTx
  {
    StoredEffect(d, w);
  }

  /**
   A frame that meets no waiting instance, is for another device, or has a bad stamp sends nothing.
   One for another device ends the wait, one with a bad stamp does not.
   */
  lemma IgnoredEffect(d: Device, w: Wire, ts: U64, txTime: U32, ldeError: bool, startOk: bool)
    requires Valid(d)
    requires !d.busy || w.dst != d.cfg.address || (ldeError && w.code in {CODE_DS_TWR_T1, CODE_DS_TWR_T2})
    requires CODE_SS_TWR <= w.code <= CODE_DS_TWR_EXT_END
    ensures var o := OnRx(d, w, ts, txTime, ldeError, startOk);
            && o.sent.None? && !o.completed && o.dev.completeAfterTx == d.completeAfterTx
            && o.dev.busy == (d.busy && w.dst == d.cfg.address)
            && o.dev.idx == (if o.dev.busy then NextIdx(d.idx) else d.idx) && (!d.busy ==> o.dev == d)
  {}

  /** `uwb_rng_twr_to_tof`: single-sided codes use one cell, double-sided codes two. */
  function TwrToTof(d: Device, idx: U16, skew: real): Tof
    requires Valid(d)
  {
    var first := CellAt(d, PrevIdx(idx));
    var f := CellAt(d, idx);
    if CODE_SS_TWR <= f.code <= CODE_SS_TWR_ACK_END then
      Tof(CalcTofSs(f.response, f.request, f.transmission, f.reception, skew))
    else if CODE_DS_TWR <= f.code <= CODE_DS_TWR_EXT_END then
      CalcTofDs(first.response, first.request, first.transmission, first.reception,
                f.response, f.request, f.transmission, f.reception)
    else Tof(0.0)
  }

  /** The base layer passes on what is for a waiting instance or belongs to no ranging mode, and ends the wait else. */
  lemma BaseEffect(d: Device, w: Wire)
    requires Valid(d)
    ensures
      var ((d1, forward), ranging) := (OnRxBase(d, w), 0x110 <= w.code <= 0x129);
      && (forward <==> d.busy && (!ranging || w.dst == d.cfg.address))
      && d1.busy == forward && d1.code == (if d.busy then w.code else d.code)
      && (d.busy && ranging ==> CellAt(d1, d.idx + 1) == Load(CellAt(d, d.idx + 1), w))
      && (!d.busy || !ranging ==> d1.ring == d.ring && d1.idx == d.idx)
  {}

  /** The extension leaves an instance alone that waits for nothing. */
  lemma DsIdle(d: Device, w: Wire, ts: U64, txTime: U32, ldeError: bool, startOk: bool)
    requires Valid(d) && !d.busy
    ensures OnRxDs(d, w, ts, txTime, ldeError, startOk) == Outcome(d, None, false)
  {}

  /** A frame whose length does not go with its code is stored but not answered, and the instance waits on. */
  lemma WrongLength(d: Device, w: Wire, ts: U64, txTime: U32, ldeError: bool, startOk: bool)
    requires Aligned(d) && d.busy && w.dst == d.cfg.address
    requires (w.code == CODE_DS_TWR && !w.Short?) || (w.code == CODE_DS_TWR_T1 && !w.Medium?)
             || (w.code == CODE_DS_TWR_T2 && !w.Long?)
    ensures
      var o := OnRx(d, w, ts, txTime, ldeError, startOk);
      && o.dev == OnRxBase(d, w).0 && o.dev.busy && o.dev.idx == NextIdx(d.idx) && o.sent.None? && !o.completed
  {
    StoredEffect(d, w);
  }

  /** A frame of another ranging mode is stored and left to that mode; one of no ranging mode is not even stored. */
  lemma OtherModes(d: Device, w: Wire, ts: U64, txTime: U32, ldeError: bool, startOk: bool)
    requires Aligned(d) && d.busy && w.code !in {0x120, 0x121, 0x122, 0x123}
    ensures
      var o := OnRx(d, w, ts, txTime, ldeError, startOk);
      && o.sent.None? && !o.completed && o.dev.code == w.code && o.dev.completeAfterTx == d.completeAfterTx
      && (w.code < 0x110 || 0x129 < w.code ==> o.dev == d.(code := w.code))
      && (0x110 <= w.code <= 0x129 && w.dst == d.cfg.address ==>
            o.dev.busy && o.dev.idx == NextIdx(d.idx) && CellAt(o.dev, o.dev.idx) == Load(CellAt(d, d.idx + 1), w))
  {
    if 0x110 <= w.code <= 0x129 && w.dst == d.cfg.address { StoredEffect(d, w); }
  }

  /** The end of a transmission completes an exchange that waits for it, if the instance waits in a ranging mode. */
  lemma TxEndEffect(d: Device)
    requires Valid(d)
    ensures
      var o := OnTxComplete(d);
      if d.busy && 0x110 <= d.code <= 0x129 then
        && o.completed == d.completeAfterTx && o.dev.busy == !d.completeAfterTx && !o.dev.completeAfterTx
        && o.sent.None? && o.dev.ring == d.ring && o.dev.idx == d.idx
      else o.dev == d && o.sent.None? && !o.completed
  {}

  /** A cell with a single-sided code gives the estimate from its own four stamps; codes of neither kind give zero. */
  lemma TofByCode(d: Device, idx: U16, skew: real, q: int, p: int, t: int, c: int)
    requires Valid(d) && 0 <= p - q < TWO32 && 0 <= t - c < TWO32
    requires var f := d.ring[idx % |d.ring|];
             f.request == Lo32(q) && f.response == Lo32(p) && f.transmission == Lo32(t) && f.reception == Lo32(c)
    ensures var code := d.ring[idx % |d.ring|].code;
            && (0x110 <= code <= 0x11b ==>
                  TwrToTof(d, idx, skew) == Tof(((p - q) as real - (t - c) as real * (1.0 - skew)) / 2.0))
            && (code < 0x110 || 0x11b < code < 0x120 || 0x129 < code ==> TwrToTof(d, idx, skew) == Tof(0.0))
  {
    WrappedInterval(p, q);
    WrappedInterval(t, c);
  }

  /** All double-sided codes, 0x120 to 0x129, give the estimate that a final frame gives. */
  lemma TofAnyDs(d: Device, idx: U16, skew: real, code: U16)
    requires Aligned(d) && 0x120 <= code <= 0x129
    ensures
      var (f, final) := (CellAt(d, idx), CODE_DS_TWR_FINAL);
      TwrToTof(PutAt(d, idx, f.(code := code)), idx, skew) == TwrToTof(PutAt(d, idx, f.(code := final)), idx, skew)
  {
    PrevCell(idx, |d.ring|);
  }

  // ----- The instance as the firmware holds it -----

  /** `struct uwb_rng_instance`: fields and ring cells are updated in place. */
  class RngInstance {
    const cfg: Config
    var idx: U16
    var seqNum: U16
    var code: U16
    var busy: bool
    var completeAfterTx: bool
    const frames: array<Frame>

    ghost predicate Ready()
      reads this, frames
    {
      Valid(State())
    }

    ghost function State(): Device
      reads this, frames
    {
      Device(cfg, idx, seqNum, code, busy, completeAfterTx, frames[..])
    }

    constructor (cfg: Config, nframes: nat, blank: Frame)
      requires nframes > 0
      ensures Ready() && fresh(frames)
      ensures State() == Device(cfg, 0xffff, 0, 0, false, false, frames[..]) && frames.Length == nframes
    {
      this.cfg := cfg;
      idx, seqNum, code := 0xffff, 0, 0;
      busy, completeAfterTx := false, false;
      frames := new Frame[nframes](_ => blank);
    }

    method Request(dst: U16, startOk: bool) returns (sent: Option<Tx>)
      requires Ready() && !busy
      modifies this, frames
      ensures Ready()
      ensures Outcome(State(), sent, false) == OnRequest(old(State()), dst, startOk)
    {
      var i := (idx + 1) % frames.Length;
      busy := true;
      seqNum := (seqNum + 2) % TWO16;
      frames[i] := frames[i].(seqNum := seqNum % 0x100, code := CODE_DS_TWR);
      frames[i] := frames[i].(src := cfg.address, dst := dst);
      sent := None;
      if startOk {
        sent := Some(Tx(ShortOf(frames[i]), 0));
      } else {
        busy := false;
      }
    }

    /** The base layer's receive callback. */
    method RxBase(w: Wire) returns (forward: bool)
      requires Ready()
      modifies this, frames
      ensures Ready()
      ensures (State(), forward) == OnRxBase(old(State()), w)
    {
      if !busy {
        return false;
      }
      code := w.code;
      if CODE_SS_TWR <= code <= CODE_DS_TWR_EXT_END {
        var i := (idx + 1) % frames.Length;
        frames[i] := Load(frames[i], w);
        if frames[i].dst != cfg.address {
          busy := false;
          return false;
        }
        idx := (idx + 1) % TWO16;
      }
      return true;
    }

    /** Case DS_TWR of the double-sided extension. */
    method RxRequest(w: Wire, ts: U64, startOk: bool) returns (sent: Option<Tx>)
      requires Ready()
      modifies this, frames
      ensures Ready()
      ensures Outcome(State(), sent, false) == OnDsRequest(old(State()), w, ts, startOk)
    {
      sent := None;
      if !w.Short? { return; }
      var i := idx % frames.Length;
      var delay := ReplyDelay(cfg, ts, w);
      frames[i] := frames[i].(reception := Lo32(ts), transmission := Lo32(AnnouncedTime(cfg, delay)));
      frames[i] := frames[i].(dst := frames[i].src);
      frames[i] := frames[i].(src := cfg.address, code := CODE_DS_TWR_T1);
      if startOk {
        sent := Some(Tx(MediumOf(frames[i]), delay));
      } else {
        busy := false;
      }
    }

    /** Case T1. */
    method RxT1(w: Wire, ts: U64, txTime: U32, ldeError: bool, startOk: bool) returns (sent: Option<Tx>)
      requires Ready()
      modifies this, frames
      ensures Ready()
      ensures Outcome(State(), sent, false) == OnDsT1(old(State()), w, ts, txTime, ldeError, startOk)
    {
      sent := None;
      if ldeError || !w.Medium? { return; }
      var i, next := idx % frames.Length, (idx + 1) % frames.Length;
      frames[next] := frames[next].(request := txTime, response := Lo32(ts));
      frames[i] := frames[i].(request := txTime, response := Lo32(ts));
      var delay := ReplyDelay(cfg, ts, w);
      frames[next] := frames[next].(dst := frames[i].src, src := cfg.address,
                                    seqNum := (frames[i].seqNum + 1) % 0x100, code := CODE_DS_TWR_T2,
                                    reception := Lo32(ts), transmission := Lo32(AnnouncedTime(cfg, delay)));
      if startOk {
        sent := Some(Tx(LongOf(frames[next]), delay));
      } else {
        busy := false;
      }
    }

    /** Case T2. */
    method RxT2(w: Wire, ts: U64, txTime: U32, ldeError: bool, startOk: bool)
      returns (sent: Option<Tx>, completed: bool)
      requires Ready()
      modifies this, frames
      ensures Ready()
      ensures Outcome(State(), sent, completed) == OnDsT2(old(State()), w, ts, txTime, ldeError, startOk)
    {
      sent, completed := None, false;
      if ldeError || !w.Long? { return; }
      var i, prev := idx % frames.Length, (idx - 1) % TWO16 % frames.Length;
      frames[prev] := frames[prev].(request := frames[i].request, response := frames[i].response);
      frames[i] := frames[i].(request := txTime, response := Lo32(ts));
      frames[i] := frames[i].(dst := frames[i].src);
      frames[i] := frames[i].(src := cfg.address, code := CODE_DS_TWR_FINAL);
      if startOk {
        sent := Some(Tx(LongOf(frames[i]), ReplyDelay(cfg, ts, w)));
        completeAfterTx := true;
      } else {
        busy := false;
        completed := true;
      }
    }

    /** The double-sided extension's receive callback. */
    method RxDs(w: Wire, ts: U64, txTime: U32, ldeError: bool, startOk: bool)
      returns (sent: Option<Tx>, completed: bool)
      requires Ready()
      modifies this, frames
      ensures Ready()
      ensures Outcome(State(), sent, completed) == OnRxDs(old(State()), w, ts, txTime, ldeError, startOk)
    {
      sent, completed := None, false;
      if !busy {
        return;
      }
      if code == CODE_DS_TWR {
        sent := RxRequest(w, ts, startOk);
      } else if code == CODE_DS_TWR_T1 {
        sent := RxT1(w, ts, txTime, ldeError, startOk);
      } else if code == CODE_DS_TWR_T2 {
        sent, completed := RxT2(w, ts, txTime, ldeError, startOk);
      } else if code == CODE_DS_TWR_FINAL {
        busy := false;
        completed := true;
      }
    }

    /** A received frame, as the callback list runs it. */
    method Rx(w: Wire, ts: U64, txTime: U32, ldeError: bool, startOk: bool)
      returns (sent: Option<Tx>, completed: bool)
      requires Ready()
      modifies this, frames
      ensures Ready()
      ensures Outcome(State(), sent, completed) == OnRx(old(State()), w, ts, txTime, ldeError, startOk)
    {
      var forward := RxBase(w);
      sent, completed := None, false;
      if forward {
        sent, completed := RxDs(w, ts, txTime, ldeError, startOk);
      }
    }

    method RxTimeout() returns (handled: bool)
      modifies this`busy
      ensures State() == OnTimeout(old(State()))
      ensures handled == (old(busy) && CODE_SS_TWR <= code < CODE_DS_TWR_EXT_END)
    {
      if !busy {
        return false;
      }
      busy := false;
      return CODE_SS_TWR <= code < CODE_DS_TWR_EXT_END;
    }

    method TxComplete() returns (completed: bool)
      modifies this`busy, this`completeAfterTx
      ensures Outcome(State(), None, completed) == OnTxComplete(old(State()))
    {
      completed := false;
      if busy && CODE_SS_TWR <= code <= CODE_DS_TWR_EXT_END {
        if completeAfterTx {
          busy := false;
          completed := true;
        }
        completeAfterTx := false;
      }
    }
  }
}
