/**
 Two devices ranging over a lossy channel.  Each callback is one atomic step.  Any number of
 frames may be under way: a frame is on the air from the moment it is scheduled, and is
 delivered after the flight time or lost.  A waiting device that is not sending may time out at
 any moment, and a free device may start a new request at any moment, also while frames of an
 earlier exchange are still under way.  There is no third sender.
 */
module TwrDsRuns {
  import opened Common
  import opened RngMath
  import opened TwrDs

  datatype Id = A | B

  function Other(i: Id): Id { if i == A then B else A }

  /** A free-running tick counter. */
  datatype Clock = Clock(offset: real, rate: real)

  /** The counter's reading at true time `x`, before and after truncation to whole ticks. */
  function Reading(c: Clock, x: real): real { c.offset + c.rate * x }
  function Ticks(c: Clock, x: real): int { Reading(c, x).Floor }

  datatype World = World(a: Clock, b: Clock, tof: real) {
    function Of(i: Id): Clock { if i == A then a else b }
  }

  /** The 32-bit stamp that device `i` gives to an event at true time `x`. */
  function Stamp(w: World, i: Id, x: real): U32 { Lo32(Ticks(w.Of(i), x)) }

  /** The 40-bit receive timestamp. */
  function RxTime(w: World, i: Id, x: real): U64 { Ticks(w.Of(i), x) % TWO40 }

  /**
   Ground truth about one frame that was accepted: when it left and arrived, and its receiver's past
   at that moment: when its last transmission left, the chain of the last frame that it accepted,
   when its reply to that left, and what its current cell held.
   */
  datatype Hop = Hop(sentAt: real, arrivedAt: real, lastSent: Option<real>, heard: Chain, replied: Option<real>,
                     cell: Frame)

  /** The frames of one exchange so far: request, first reply, second message, report. */
  datatype Chain = Chain(initiator: Id, hops: seq<Hop>)

  /** A frame on the air, with the chain it continues. */
  datatype Flight = Flight(from: Id, wire: Wire, sentAt: real, chain: Chain)

  /**
   A device with its radio: last transmit stamp, and whether a transmission is not yet reported
   done.  Ground truth: the chain of the last frame that it accepted, when its reply to that left, if
   it sent one, and when its last transmission of any kind left.
   */
  datatype Party = Party(dev: Device, txTime: U32, txBusy: bool, turn: Chain, sentAt: Option<real>,
                         lastSent: Option<real>)

  datatype Sys = Sys(a: Party, b: Party, air: set<Flight>) {
    function Of(i: Id): Party { if i == A then a else b }
    function Put(i: Id, p: Party): Sys { if i == A then this.(a := p) else this.(b := p) }
  }

  datatype Event =
    | Request(id: Id, dst: U16, at: real, startOk: bool)
    | Listen(id: Id, startOk: bool)
    | Deliver(flight: Flight, ldeError: bool, startOk: bool, replyAt: real)
    | Lose(flight: Flight)
    | Timeout(id: Id)
    | TxDone(id: Id)

  ghost predicate Ready(s: Sys) { Valid(s.a.dev) && Valid(s.b.dev) }

  // ----- The eight stamps of one exchange -----

  /** First cell: the initiator's round trip around the responder's reply. */
  predicate FirstLeg(w: World, c: Chain, f: Frame)
    requires |c.hops| >= 2
  {
    var (i, r) := (c.initiator, Other(c.initiator));
    && f.request == Stamp(w, i, c.hops[0].sentAt)
    && f.reception == Stamp(w, r, c.hops[0].arrivedAt)
    && f.transmission == Stamp(w, r, c.hops[1].sentAt)
    && f.response == Stamp(w, i, c.hops[1].arrivedAt)
  }

  /** Second cell: the responder's round trip around the initiator's reply. */
  predicate SecondLeg(w: World, c: Chain, f: Frame)
    requires |c.hops| >= 3
  {
    var (i, r) := (c.initiator, Other(c.initiator));
    && f.request == Stamp(w, r, c.hops[1].sentAt)
    && f.reception == Stamp(w, i, c.hops[1].arrivedAt)
    && f.transmission == Stamp(w, i, c.hops[2].sentAt)
    && f.response == Stamp(w, r, c.hops[2].arrivedAt)
    && f.code == CODE_DS_TWR_FINAL
  }

  /** Cells `idx-1` and `idx` hold the eight stamps of this exchange. */
  ghost predicate HoldsExchange(w: World, c: Chain, d: Device)
    requires Valid(d)
  {
    && |c.hops| >= 3
    && FirstLeg(w, c, CellAt(d, PrevIdx(d.idx)))
    && SecondLeg(w, c, CellAt(d, d.idx))
  }

  // ----- Steps -----

  function Arrival(w: World, f: Flight): real { f.sentAt + w.tof }

  predicate Accepts(d: Device, w: Wire) {
    d.busy && CODE_SS_TWR <= w.code <= CODE_DS_TWR_EXT_END && w.dst == d.cfg.address
  }

  function HopOf(w: World, p: Party, f: Flight): Hop
    requires |p.dev.ring| > 0
  {
    Hop(f.sentAt, Arrival(w, f), p.lastSent, p.turn, p.sentAt, CellAt(p.dev, p.dev.idx))
  }

  /** The chain once the receiver has accepted the frame. */
  function Joined(w: World, p: Party, f: Flight): Chain
    requires |p.dev.ring| > 0
  {
    Chain(f.chain.initiator, f.chain.hops + [HopOf(w, p, f)])
  }

  /** What device `i` does with a frame that reaches it. */
  function Answer(w: World, i: Id, p: Party, f: Flight, ldeError: bool, startOk: bool): Outcome
    requires |p.dev.ring| > 0
  {
    OnRx(p.dev, f.wire, RxTime(w, i, Arrival(w, f)), p.txTime, ldeError, startOk)
  }

  /** The party afterwards and the frames it sends; a reply leaves at true time `replyAt`. */
  function Hear(w: World, i: Id, p: Party, f: Flight, ldeError: bool, startOk: bool, replyAt: real):
      (Party, set<Flight>)
    requires |p.dev.ring| > 0
  {
    var o := Answer(w, i, p, f, ldeError, startOk);
    if !Accepts(p.dev, f.wire) then (p.(dev := o.dev), {})
    else
      var c := Joined(w, p, f);
      if o.sent.Some? then
        (Party(o.dev, Stamp(w, i, replyAt), true, c, Some(replyAt), Some(replyAt)),
         {Flight(i, o.sent.value.wire, replyAt, c)})
      else (p.(dev := o.dev, turn := c, sentAt := None), {})
  }

  /** A reply leaves when the counter shows the programmed value, after the arrival. */
  predicate ReplyTimely(w: World, i: Id, p: Party, f: Flight, ldeError: bool, startOk: bool, replyAt: real)
    requires |p.dev.ring| > 0
  {
    var o := Answer(w, i, p, f, ldeError, startOk);
    o.sent.Some? ==>
      && replyAt > Arrival(w, f)
      && Ticks(w.Of(i), replyAt) % TWO40 == MarkerTime(p.dev.cfg, o.sent.value.delay)
  }

  ghost predicate Enabled(w: World, s: Sys, e: Event)
    requires Ready(s)
  {
    match e
    case Request(i, _, _, _) => !s.Of(i).dev.busy && !s.Of(i).txBusy
    case Listen(i, _) => !s.Of(i).dev.busy && !s.Of(i).txBusy
    case Deliver(f, ldeError, startOk, replyAt) =>
      var to := Other(f.from);
      f in s.air && !s.Of(to).txBusy && ReplyTimely(w, to, s.Of(to), f, ldeError, startOk, replyAt)
    case Lose(f) => f in s.air
    case Timeout(i) => s.Of(i).dev.busy && !s.Of(i).txBusy
    case TxDone(i) => s.Of(i).txBusy
  }

  /** The radio of `i` sends a request at true time `x`. */
  function Asked(w: World, i: Id, p: Party, o: Outcome, x: real): (Party, set<Flight>) {
    if o.sent.Some? then
      (p.(dev := o.dev, txTime := Stamp(w, i, x), txBusy := true, lastSent := Some(x)),
       {Flight(i, o.sent.value.wire, x, Chain(i, []))})
    else (p.(dev := o.dev), {})
  }

  /** Device `Other(f.from)` has taken `f` off the air. */
  function Delivered(s: Sys, f: Flight, p: Party, sent: set<Flight>): Sys {
    s.Put(Other(f.from), p).(air := s.air - {f} + sent)
  }

  ghost function Next(w: World, s: Sys, e: Event): Sys
    requires Ready(s)
  {
    match e
    case Request(i, dst, at, startOk) =>
      var (p, sent) := Asked(w, i, s.Of(i), OnRequest(s.Of(i).dev, dst, startOk), at);
      s.Put(i, p).(air := s.air + sent)
    case Listen(i, startOk) => s.Put(i, s.Of(i).(dev := OnListen(s.Of(i).dev, startOk)))
    case Deliver(f, ldeError, startOk, replyAt) =>
      var to := Other(f.from);
      var (p, sent) := Hear(w, to, s.Of(to), f, ldeError, startOk, replyAt);
      Delivered(s, f, p, sent)
    case Lose(f) => s.(air := s.air - {f})
    case Timeout(i) => s.Put(i, s.Of(i).(dev := OnTimeout(s.Of(i).dev)))
    case TxDone(i) => s.Put(i, s.Of(i).(dev := OnTxComplete(s.Of(i).dev).dev, txBusy := false))
  }

  /** The completion callbacks of device `i` run during this step. */
  ghost predicate Completes(w: World, s: Sys, e: Event, i: Id)
    requires Ready(s)
  {
    match e
    case Deliver(f, ldeError, startOk, _) =>
      i == Other(f.from) && Answer(w, i, s.Of(i), f, ldeError, startOk).completed
    case TxDone(j) => i == j && OnTxComplete(s.Of(j).dev).completed
    case _ => false
  }

  /** Both devices are idle, and nothing is on the air. */
  ghost predicate Initial(s: Sys) {
    && Aligned(s.a.dev) && Aligned(s.b.dev)
    && s.a.dev.cfg.address != s.b.dev.cfg.address
    && Idle(s.a) && Idle(s.b) && s.air == {}
  }

  ghost predicate Idle(p: Party) {
    !p.dev.busy && !p.dev.completeAfterTx && !p.txBusy && p.turn.hops == [] && p.sentAt == None && p.lastSent == None
  }

  /** The events `es` lead from `s` to `s'`. */
  ghost predicate Run(w: World, s: Sys, es: seq<Event>, s': Sys)
    requires Ready(s)
    decreases |es|
  {
    if es == [] then s' == s
    else
      && Enabled(w, s, es[0])
      && (NextReady(w, s, es[0]); Run(w, Next(w, s, es[0]), es[1..], s'))
  }

  lemma NextReady(w: World, s: Sys, e: Event)
    requires Ready(s)
    ensures var n := Next(w, s, e); Ready(n) && SameDevices(s, n)
  {}

  ghost predicate SameDevices(s: Sys, n: Sys) {
    && n.a.dev.cfg == s.a.dev.cfg && |n.a.dev.ring| == |s.a.dev.ring|
    && n.b.dev.cfg == s.b.dev.cfg && |n.b.dev.ring| == |s.b.dev.ring|
  }

  // ----- The receiver's past -----

  function Receiver(c: Chain, k: nat): Id { if k % 2 == 0 then Other(c.initiator) else c.initiator }

  /** The frame answers the receiver's last transmission. */
  predicate Latest(c: Chain, k: nat)
    requires 0 < k < |c.hops|
  {
    c.hops[k].lastSent == Some(c.hops[k - 1].sentAt)
  }

  /** The receiver accepted nothing between its part in this exchange and the frame. */
  predicate Kept(c: Chain, k: nat)
    requires 1 < k < |c.hops|
  {
    c.hops[k].heard == Chain(c.initiator, c.hops[..k - 1]) && c.hops[k].replied == Some(c.hops[k - 1].sentAt)
  }

  /** The reception stamp in the cell of a device `j` whose last accepted frame ends the chain. */
  function ReceptionOf(w: World, j: Id, c: Chain): U32
    requires c.hops != []
  {
    match |c.hops|
    case 1 => Stamp(w, j, c.hops[0].arrivedAt)
    case 2 => Stamp(w, Other(j), c.hops[0].arrivedAt)
    case 3 => Stamp(w, Other(j), c.hops[1].arrivedAt)
    case _ => Stamp(w, j, c.hops[1].arrivedAt)
  }

  /** What the current cell of a device says about the last frame it accepted and its reply. */
  ghost predicate CellSays(w: World, j: Id, heard: Chain, replied: Option<real>, cell: Frame) {
    heard.hops != [] ==>
      && cell.reception == ReceptionOf(w, j, heard)
      && (replied.Some? ==>
            match |heard.hops| {
              case 1 => heard.initiator == Other(j) && cell.transmission == Stamp(w, j, replied.value)
              case 2 =>
                var h := heard.hops[1];
                && heard.initiator == j && h.lastSent.Some?
                && cell.transmission == Stamp(w, Other(j), h.sentAt) && cell.response == Stamp(w, j, h.arrivedAt)
                && cell.request == Stamp(w, j, h.lastSent.value)
              case _ => true
            })
  }

  // ----- What is true of every frame on the air -----

  /** A receiver in the middle of a chain has sent and, later in it, accepted something before. */
  ghost predicate HopOk(w: World, c: Chain, k: nat)
    requires k < |c.hops|
  {
    var h := c.hops[k];
    && h.arrivedAt == h.sentAt + w.tof
    && (k > 0 ==> h.lastSent.Some?) && (k > 1 ==> h.heard.hops != [])
    && CellSays(w, Receiver(c, k), h.heard, h.replied, h.cell)
  }

  ghost predicate ChainOk(w: World, c: Chain) { forall k :: 0 <= k < |c.hops| ==> HopOk(w, c, k) }

  ghost predicate HopsFly(w: World, c: Chain) {
    forall k :: 0 <= k < |c.hops| ==> c.hops[k].arrivedAt == c.hops[k].sentAt + w.tof
  }

  lemma OkFlies(w: World, c: Chain)
    requires ChainOk(w, c)
    ensures HopsFly(w, c)
  {
    forall k | 0 <= k < |c.hops| ensures c.hops[k].arrivedAt == c.hops[k].sentAt + w.tof {
      assert HopOk(w, c, k);
    }
  }

  /** `own` and `peer` are the addresses of sender and receiver. */
  ghost predicate IsRequest(w: World, f: Flight, own: U16) {
    f.chain == Chain(f.from, []) && f.wire.Short? && f.wire.code == CODE_DS_TWR && f.wire.src == own
  }

  ghost predicate IsT1(w: World, f: Flight, own: U16, peer: U16) {
    var (r, c) := (f.from, f.chain);
    && c.initiator == Other(r) && |c.hops| == 1
    && f.wire.Medium? && f.wire.code == CODE_DS_TWR_T1 && f.wire.src == own && f.wire.dst == peer
    && f.wire.reception == Stamp(w, r, c.hops[0].arrivedAt)
    && f.wire.transmission == Stamp(w, r, f.sentAt)
  }

  ghost predicate IsT2(w: World, f: Flight, own: U16, peer: U16) {
    var (i, c) := (f.from, f.chain);
    && c.initiator == i && |c.hops| == 2
    && f.wire.Long? && f.wire.code == CODE_DS_TWR_T2 && f.wire.src == own && f.wire.dst == peer
    && c.hops[1].lastSent.Some? && f.wire.request == Stamp(w, i, c.hops[1].lastSent.value)
    && f.wire.response == f.wire.reception == Stamp(w, i, c.hops[1].arrivedAt)
    && f.wire.transmission == Stamp(w, i, f.sentAt)
  }

  ghost predicate IsFinal(w: World, f: Flight, own: U16, peer: U16) {
    var (r, c) := (f.from, f.chain);
    && c.initiator == Other(r) && |c.hops| == 3
    && f.wire.Long? && f.wire.code == CODE_DS_TWR_FINAL && f.wire.src == own && f.wire.dst == peer
    && c.hops[2].lastSent.Some? && f.wire.request == Stamp(w, r, c.hops[2].lastSent.value)
    && f.wire.reception == Stamp(w, c.initiator, c.hops[1].arrivedAt)
    && f.wire.transmission == Stamp(w, c.initiator, c.hops[2].sentAt)
    && f.wire.response == Stamp(w, r, c.hops[2].arrivedAt)
  }

  ghost predicate FlightOk(w: World, f: Flight, own: U16, peer: U16) {
    && ChainOk(w, f.chain)
    && (IsRequest(w, f, own) || IsT1(w, f, own, peer) || IsT2(w, f, own, peer) || IsFinal(w, f, own, peer))
  }

  // ----- What every device keeps -----

  /**
   The frames of an exchange found their receivers as those had left it: the two messages after the
   first reply answer the last transmission, and the device accepted nothing before it finished.
   */
  ghost predicate Untangled(c: Chain, i: Id)
    requires |c.hops| >= 3
  {
    Latest(c, 1) && Latest(c, 2) && if i == c.initiator then |c.hops| >= 4 && Kept(c, 3) else Kept(c, 2)
  }

  /** The stamps agree. */
  ghost predicate LatestStamp(w: World, c: Chain, k: nat)
    requires 0 < k < |c.hops|
  {
    var (h, j) := (c.hops[k], Receiver(c, k));
    h.lastSent.Some? && Stamp(w, j, h.lastSent.value) == Stamp(w, j, c.hops[k - 1].sentAt)
  }

  ghost predicate KeptStamp(w: World, c: Chain, k: nat)
    requires 1 < k < |c.hops|
  {
    var (h, j) := (c.hops[k], Receiver(c, k));
    h.heard.hops != [] && ReceptionOf(w, j, h.heard) == ReceptionOf(w, j, Chain(c.initiator, c.hops[..k - 1]))
  }

  /** The receiver's transmit stamps and current cell, read at each message, are those of the exchange. */
  ghost predicate Matched(w: World, c: Chain, i: Id)
    requires |c.hops| >= 3
  {
    && LatestStamp(w, c, 2)
    && if i == c.initiator then |c.hops| >= 4 && FirstLeg(w, c, c.hops[3].cell)
       else
         && LatestStamp(w, c, 1)
         && c.hops[2].cell.reception == Stamp(w, i, c.hops[0].arrivedAt)
         && c.hops[2].cell.transmission == Stamp(w, i, c.hops[1].sentAt)
  }

  /** No event of the receiver's past bears the stamp of another event of this exchange. */
  ghost predicate StampsTell(w: World, c: Chain, i: Id)
    requires |c.hops| >= (if i == c.initiator then 4 else 3)
  {
    && (LatestStamp(w, c, 1) ==> Latest(c, 1)) && (LatestStamp(w, c, 2) ==> Latest(c, 2))
    && var k := if i == c.initiator then 3 else 2; KeptStamp(w, c, k) ==> Kept(c, k)
  }

  lemma LatestHasStamp(w: World, c: Chain, k: nat)
    requires 0 < k < |c.hops| && Latest(c, k)
    ensures LatestStamp(w, c, k)
  {}

  /** An untangled exchange is matched. */
  lemma UntangledMatches(w: World, c: Chain, i: Id)
    requires ChainOk(w, c) && |c.hops| >= (if i == c.initiator then 4 else 3) && Untangled(c, i)
    ensures Matched(w, c, i)
  {
    LatestHasStamp(w, c, 1);
    LatestHasStamp(w, c, 2);
    assert HopOk(w, c, if i == c.initiator then 3 else 2);
  }

  /** A matched exchange is untangled but for events that bear the same stamps. */
  lemma MatchedIsUntangled(w: World, c: Chain, i: Id)
    requires ChainOk(w, c) && |c.hops| >= (if i == c.initiator then 4 else 3)
    requires Matched(w, c, i) && StampsTell(w, c, i)
    ensures Untangled(c, i)
  {
    assert HopOk(w, c, if i == c.initiator then 3 else 2);
  }

  /** The device has everything of its exchange, and has it right exactly if it is matched. */
  ghost predicate Finished(w: World, i: Id, p: Party)
    requires Valid(p.dev)
  {
    && |p.turn.hops| >= (if i == p.turn.initiator then 4 else 3)
    && (HoldsExchange(w, p.turn, p.dev) <==> Matched(w, p.turn, i))
  }

  /** The current cell and the transmit stamp. */
  ghost predicate Remembers(w: World, i: Id, p: Party)
    requires Valid(p.dev)
  {
    && CellSays(w, i, p.turn, p.sentAt, CellAt(p.dev, p.dev.idx))
    && (p.lastSent.Some? ==> p.txTime == Stamp(w, i, p.lastSent.value))
  }

  ghost predicate PartyOk(w: World, i: Id, p: Party) {
    && Aligned(p.dev) && ChainOk(w, p.turn) && Remembers(w, i, p)
    && (p.dev.completeAfterTx ==>
          && p.txBusy && p.dev.busy && p.dev.code == CODE_DS_TWR_T2
          && p.turn.initiator == Other(i) && Finished(w, i, p))
  }

  /** Both ends of a frame have done what its chain says of them. */
  ghost predicate Involved(s: Sys, f: Flight) {
    var (from, to) := (s.Of(f.from), s.Of(Other(f.from)));
    && from.lastSent.Some? && (f.chain.hops != [] ==> from.turn.hops != [] && to.lastSent.Some?)
    && (|f.chain.hops| > 1 ==> to.turn.hops != [])
  }

  ghost predicate AirOk(w: World, s: Sys) {
    forall f :: f in s.air ==>
      && FlightOk(w, f, s.Of(f.from).dev.cfg.address, s.Of(Other(f.from)).dev.cfg.address) && Involved(s, f)
  }

  ghost predicate Inv(w: World, s: Sys) {
    PartyOk(w, A, s.a) && PartyOk(w, B, s.b) && AirOk(w, s)
  }

  // ----- Hardware time stamps -----

  lemma LowBits(t: int)
    ensures Lo32(t % TWO40) == Lo32(t)
  {
    SameLo32(t % TWO40, t, -(t / TWO40) * 256);
  }

  lemma RxStampLow(w: World, i: Id, x: real)
    ensures Lo32(RxTime(w, i, x)) == Stamp(w, i, x)
  {
    LowBits(Ticks(w.Of(i), x));
  }

  /** A reply leaves when its announcement says it does. */
  lemma ReplyStamp(w: World, i: Id, cfg: Config, delay: U64, x: real)
    requires Ticks(w.Of(i), x) % TWO40 == MarkerTime(cfg, delay)
    ensures Stamp(w, i, x) == Lo32(AnnouncedTime(cfg, delay))
  {
    LowBits(Ticks(w.Of(i), x));
    AnnouncedIsActual(cfg, delay);
  }

  // ----- Each delivery -----

  /** What a delivery leaves behind is in order, on the device and on the air. */
  ghost predicate HeardWell(w: World, i: Id, p: Party, f: Flight, e: Event, peer: U16)
    requires Valid(p.dev) && e.Deliver?
  {
    var (q, sent) := Hear(w, i, p, f, e.ldeError, e.startOk, e.replyAt);
    && PartyOk(w, i, q) && q.dev.cfg == p.dev.cfg
    && (forall g :: g in sent ==> g.from == i && FlightOk(w, g, p.dev.cfg.address, peer))
    && (Answer(w, i, p, f, e.ldeError, e.startOk).completed ==> Finished(w, i, q))
  }

  /** Device `i`, with its radio free, is given a frame that was sent by the other one. */
  ghost predicate Heard(w: World, i: Id, p: Party, f: Flight, e: Event) {
    && PartyOk(w, i, p) && !p.txBusy && f.from == Other(i) && ChainOk(w, f.chain) && e.Deliver?
    && (f.chain.hops != [] ==> p.lastSent.Some?) && (|f.chain.hops| > 1 ==> p.turn.hops != [])
    && ReplyTimely(w, i, p, f, e.ldeError, e.startOk, e.replyAt)
  }

  lemma JoinedOk(w: World, i: Id, p: Party, f: Flight, e: Event)
    requires Heard(w, i, p, f, e) && Receiver(f.chain, |f.chain.hops|) == i
    ensures ChainOk(w, Joined(w, p, f))
  {
    var (c, j) := (f.chain, Joined(w, p, f));
    forall k | 0 <= k < |j.hops| ensures HopOk(w, j, k) {
      if k < |c.hops| {
        assert HopOk(w, c, k) && j.hops[k] == c.hops[k] && Receiver(j, k) == Receiver(c, k);
      }
    }
  }

  lemma HearIgnored(w: World, i: Id, p: Party, f: Flight, e: Event, peer: U16)
    requires Heard(w, i, p, f, e) && !Accepts(p.dev, f.wire)
    requires CODE_SS_TWR <= f.wire.code <= CODE_DS_TWR_EXT_END
    ensures HeardWell(w, i, p, f, e, peer)
  {
    NeighboursDiffer(p.dev.idx, |p.dev.ring|);
  }

  lemma HearRequest(w: World, i: Id, p: Party, f: Flight, e: Event, peer: U16)
    requires Heard(w, i, p, f, e) && IsRequest(w, f, peer) && Accepts(p.dev, f.wire)
    ensures HeardWell(w, i, p, f, e, peer)
  {
    var ts := RxTime(w, i, Arrival(w, f));
    JoinedOk(w, i, p, f, e);
    RxStampLow(w, i, Arrival(w, f));
    RequestEffect(p.dev, f.wire, ts, p.txTime, e.ldeError, e.startOk);
    var o := Answer(w, i, p, f, e.ldeError, e.startOk);
    if o.sent.Some? {
      ReplyStamp(w, i, p.dev.cfg, o.sent.value.delay, e.replyAt);
      var (q, sent) := Hear(w, i, p, f, e.ldeError, e.startOk, e.replyAt);
      assert forall g :: g in sent ==> IsT1(w, g, p.dev.cfg.address, peer);
    }
  }

  /** With a bad stamp the first reply is only stored. */
  lemma T1Spoilt(w: World, i: Id, p: Party, f: Flight, e: Event, peer: U16)
    requires Heard(w, i, p, f, e) && IsT1(w, f, peer, p.dev.cfg.address) && Accepts(p.dev, f.wire) && e.ldeError
    ensures HeardWell(w, i, p, f, e, peer)
  {
    JoinedOk(w, i, p, f, e);
    IgnoredEffect(p.dev, f.wire, RxTime(w, i, Arrival(w, f)), p.txTime, e.ldeError, e.startOk);
    StoredEffect(p.dev, f.wire);
    assert Joined(w, p, f).hops[0] == f.chain.hops[0];
  }

  lemma HearT1(w: World, i: Id, p: Party, f: Flight, e: Event, peer: U16)
    requires Heard(w, i, p, f, e) && IsT1(w, f, peer, p.dev.cfg.address) && Accepts(p.dev, f.wire)
    ensures HeardWell(w, i, p, f, e, peer)
  {
    if e.ldeError {
      T1Spoilt(w, i, p, f, e, peer);
    } else {
      var ts := RxTime(w, i, Arrival(w, f));
      JoinedOk(w, i, p, f, e);
      RxStampLow(w, i, Arrival(w, f));
      T1Effect(p.dev, f.wire, ts, p.txTime, e.startOk);
      var o := Answer(w, i, p, f, e.ldeError, e.startOk);
      if o.sent.Some? {
        ReplyStamp(w, i, p.dev.cfg, o.sent.value.delay, e.replyAt);
        var (q, sent) := Hear(w, i, p, f, e.ldeError, e.startOk, e.replyAt);
        assert forall g :: g in sent ==> IsT2(w, g, p.dev.cfg.address, peer);
      }
    }
  }

  /** The responder's two cells after the second message. */
  lemma T2Cells(w: World, i: Id, c: Chain, d: Device)
    requires Valid(d) && c.initiator == Other(i) && |c.hops| == 3
    requires c.hops[1].lastSent.Some? && c.hops[2].lastSent.Some?
    requires
      CellAt(d, PrevIdx(d.idx)) == c.hops[2].cell.(request := Stamp(w, Other(i), c.hops[1].lastSent.value),
                                                   response := Stamp(w, Other(i), c.hops[1].arrivedAt))
    requires
      var f := CellAt(d, d.idx);
      && f.request == Stamp(w, i, c.hops[2].lastSent.value) && f.response == Stamp(w, i, c.hops[2].arrivedAt)
      && f.reception == Stamp(w, Other(i), c.hops[1].arrivedAt)
      && f.transmission == Stamp(w, Other(i), c.hops[2].sentAt) && f.code == CODE_DS_TWR_FINAL
    ensures HoldsExchange(w, c, d) <==> Matched(w, c, i)
  {}

  lemma T2Finishes(w: World, i: Id, p: Party, f: Flight, e: Event, peer: U16)
    requires Heard(w, i, p, f, e) && IsT2(w, f, peer, p.dev.cfg.address) && Accepts(p.dev, f.wire) && !e.ldeError
    ensures Finished(w, i, Hear(w, i, p, f, e.ldeError, e.startOk, e.replyAt).0)
  {
    var ts := RxTime(w, i, Arrival(w, f));
    RxStampLow(w, i, Arrival(w, f));
    T2Effect(p.dev, f.wire, ts, p.txTime, e.startOk);
    var (c, d) := (Joined(w, p, f), Answer(w, i, p, f, e.ldeError, e.startOk).dev);
    assert c.hops[1] == f.chain.hops[1] && c.hops[2] == HopOf(w, p, f);
    T2Cells(w, i, c, d);
  }

  /** What the responder is left with after the second message. */
  lemma T2Party(w: World, i: Id, p: Party, f: Flight, e: Event, peer: U16)
    requires Heard(w, i, p, f, e) && IsT2(w, f, peer, p.dev.cfg.address) && Accepts(p.dev, f.wire) && !e.ldeError
    ensures var q := Hear(w, i, p, f, e.ldeError, e.startOk, e.replyAt).0;
            PartyOk(w, i, q) && q.dev.cfg == p.dev.cfg && Finished(w, i, q)
  {
    var ts := RxTime(w, i, Arrival(w, f));
    JoinedOk(w, i, p, f, e);
    RxStampLow(w, i, Arrival(w, f));
    T2Finishes(w, i, p, f, e, peer);
    T2Effect(p.dev, f.wire, ts, p.txTime, e.startOk);
  }

  lemma T2Reports(w: World, i: Id, p: Party, f: Flight, e: Event, peer: U16)
    requires Heard(w, i, p, f, e) && IsT2(w, f, peer, p.dev.cfg.address) && Accepts(p.dev, f.wire) && !e.ldeError
    ensures forall g :: g in Hear(w, i, p, f, e.ldeError, e.startOk, e.replyAt).1 ==>
              g.from == i && g.chain == Joined(w, p, f) && IsFinal(w, g, p.dev.cfg.address, peer)
  {
    var ts := RxTime(w, i, Arrival(w, f));
    RxStampLow(w, i, Arrival(w, f));
    T2Effect(p.dev, f.wire, ts, p.txTime, e.startOk);
    assert Joined(w, p, f).hops[2] == HopOf(w, p, f) && Joined(w, p, f).hops[1] == f.chain.hops[1];
  }

  /** With a bad stamp the second message is only stored. */
  lemma T2Spoilt(w: World, i: Id, p: Party, f: Flight, e: Event, peer: U16)
    requires Heard(w, i, p, f, e) && IsT2(w, f, peer, p.dev.cfg.address) && Accepts(p.dev, f.wire) && e.ldeError
    ensures HeardWell(w, i, p, f, e, peer)
  {
    JoinedOk(w, i, p, f, e);
    IgnoredEffect(p.dev, f.wire, RxTime(w, i, Arrival(w, f)), p.txTime, e.ldeError, e.startOk);
    StoredEffect(p.dev, f.wire);
    assert Joined(w, p, f).hops[1] == f.chain.hops[1];
  }

  lemma HearT2(w: World, i: Id, p: Party, f: Flight, e: Event, peer: U16)
    requires Heard(w, i, p, f, e) && IsT2(w, f, peer, p.dev.cfg.address) && Accepts(p.dev, f.wire)
    ensures HeardWell(w, i, p, f, e, peer)
    ensures !e.ldeError ==> Finished(w, i, Hear(w, i, p, f, e.ldeError, e.startOk, e.replyAt).0)
  {
    if e.ldeError {
      T2Spoilt(w, i, p, f, e, peer);
    } else {
      JoinedOk(w, i, p, f, e);
      T2Party(w, i, p, f, e, peer);
      T2Reports(w, i, p, f, e, peer);
    }
  }

  lemma HearFinal(w: World, i: Id, p: Party, f: Flight, e: Event, peer: U16)
    requires Heard(w, i, p, f, e) && IsFinal(w, f, peer, p.dev.cfg.address) && Accepts(p.dev, f.wire)
    ensures HeardWell(w, i, p, f, e, peer)
  {
    var ts := RxTime(w, i, Arrival(w, f));
    JoinedOk(w, i, p, f, e);
    FinalEffect(p.dev, f.wire, ts, p.txTime, e.ldeError, e.startOk);
  }

  lemma HearAny(w: World, i: Id, p: Party, f: Flight, e: Event, peer: U16)
    requires Heard(w, i, p, f, e) && FlightOk(w, f, peer, p.dev.cfg.address)
    ensures HeardWell(w, i, p, f, e, peer)
  {
    if !Accepts(p.dev, f.wire) {
      HearIgnored(w, i, p, f, e, peer);
    } else if IsRequest(w, f, peer) {
      HearRequest(w, i, p, f, e, peer);
    } else if IsT1(w, f, peer, p.dev.cfg.address) {
      HearT1(w, i, p, f, e, peer);
    } else if IsT2(w, f, peer, p.dev.cfg.address) {
      HearT2(w, i, p, f, e, peer);
    } else {
      HearFinal(w, i, p, f, e, peer);
    }
  }

  // ----- Steps and runs keep all this -----

  lemma AskKeepsParty(w: World, i: Id, p: Party, dst: U16, startOk: bool, at: real)
    requires PartyOk(w, i, p) && !p.dev.busy && !p.txBusy
    ensures var (q, sent) := Asked(w, i, p, OnRequest(p.dev, dst, startOk), at);
            && PartyOk(w, i, q) && q.dev.cfg == p.dev.cfg && Grows(p, q)
            && forall f :: f in sent ==> f.from == i && q.lastSent.Some? && IsRequest(w, f, p.dev.cfg.address)
  {
    NeighboursDiffer(p.dev.idx, |p.dev.ring|);
  }

  /** A device that has sent or accepted something has done so for good. */
  ghost predicate Grows(p: Party, q: Party) {
    (p.lastSent.Some? ==> q.lastSent.Some?) && (p.turn.hops != [] ==> q.turn.hops != [])
  }

  /** Devices in order and nothing new on the air except requests. */
  lemma AirKeepsInv(w: World, s: Sys, n: Sys)
    requires Inv(w, s) && PartyOk(w, A, n.a) && PartyOk(w, B, n.b) && SameDevices(s, n)
    requires Grows(s.a, n.a) && Grows(s.b, n.b)
    requires forall f :: f in n.air && f !in s.air ==>
      IsRequest(w, f, s.Of(f.from).dev.cfg.address) && n.Of(f.from).lastSent.Some?
    ensures Inv(w, n)
  {
    forall f | f in n.air
      ensures FlightOk(w, f, n.Of(f.from).dev.cfg.address, n.Of(Other(f.from)).dev.cfg.address) && Involved(n, f)
    {
      if f in s.air { assert Involved(s, f); }
    }
  }

  lemma RequestKeepsInv(w: World, s: Sys, e: Event)
    requires Inv(w, s) && Enabled(w, s, e) && e.Request?
    ensures Inv(w, Next(w, s, e))
  {
    assert PartyOk(w, e.id, s.Of(e.id));
    AskKeepsParty(w, e.id, s.Of(e.id), e.dst, e.startOk, e.at);
    AirKeepsInv(w, s, Next(w, s, e));
  }

  lemma QuietKeepsInv(w: World, s: Sys, e: Event)
    requires Inv(w, s) && Enabled(w, s, e) && !e.Request? && !e.Deliver?
    ensures Inv(w, Next(w, s, e))
  {
    AirKeepsInv(w, s, Next(w, s, e));
  }

  /** Every step keeps the invariant. */
  lemma StepKeepsInv(w: World, s: Sys, e: Event)
    requires Inv(w, s) && Enabled(w, s, e)
    ensures Inv(w, Next(w, s, e))
  {
    if e.Deliver? {
      DeliverKeepsInv(w, s, e);
    } else if e.Request? {
      RequestKeepsInv(w, s, e);
    } else {
      QuietKeepsInv(w, s, e);
    }
  }

  lemma DeliveredInv(w: World, s: Sys, f: Flight, p: Party, sent: set<Flight>)
    requires Inv(w, s) && PartyOk(w, Other(f.from), p) && p.dev.cfg == s.Of(Other(f.from)).dev.cfg
    requires f in s.air && Grows(s.Of(Other(f.from)), p)
    requires forall g :: g in sent ==>
      && g.from == Other(f.from) && FlightOk(w, g, p.dev.cfg.address, s.Of(f.from).dev.cfg.address)
      && p.lastSent.Some? && p.turn.hops != [] && |g.chain.hops| == |f.chain.hops| + 1
    ensures Inv(w, Delivered(s, f, p, sent))
  {
    var n := Delivered(s, f, p, sent);
    assert Involved(s, f);
    forall g | g in n.air
      ensures FlightOk(w, g, n.Of(g.from).dev.cfg.address, n.Of(Other(g.from)).dev.cfg.address) && Involved(n, g)
    {
      if g in s.air { assert Involved(s, g); } else { assert g in sent; }
    }
  }

  lemma HearGrows(w: World, i: Id, p: Party, f: Flight, ldeError: bool, startOk: bool, replyAt: real)
    requires Valid(p.dev)
    ensures var (q, sent) := Hear(w, i, p, f, ldeError, startOk, replyAt);
            && Grows(p, q)
            && forall g :: g in sent ==>
                 q.lastSent.Some? && q.turn.hops != [] && |g.chain.hops| == |f.chain.hops| + 1
  {}

  lemma DeliverKeepsInv(w: World, s: Sys, e: Event)
    requires Inv(w, s) && Enabled(w, s, e) && e.Deliver?
    ensures Inv(w, Next(w, s, e))
    ensures var to := Other(e.flight.from);
            Completes(w, s, e, to) ==> Finished(w, to, Next(w, s, e).Of(to))
  {
    var f := e.flight;
    var to := Other(f.from);
    assert Involved(s, f);
    HearAny(w, to, s.Of(to), f, e, s.Of(f.from).dev.cfg.address);
    HearGrows(w, to, s.Of(to), f, e.ldeError, e.startOk, e.replyAt);
    var (q, sent) := Hear(w, to, s.Of(to), f, e.ldeError, e.startOk, e.replyAt);
    DeliveredInv(w, s, f, q, sent);
  }

  lemma InitialInv(w: World, s: Sys)
    requires Initial(s)
    ensures Inv(w, s)
  {}

  lemma {:induction false} RunKeepsInv(w: World, s: Sys, es: seq<Event>, s': Sys)
    requires Inv(w, s) && Run(w, s, es, s')
    ensures Inv(w, s')
    decreases |es|
  {
    if es == [] {
    } else {
      StepKeepsInv(w, s, es[0]);
      RunKeepsInv(w, Next(w, s, es[0]), es[1..], s');
    }
  }

  lemma CompletesFinished(w: World, s: Sys, e: Event, i: Id)
    requires Inv(w, s) && Enabled(w, s, e) && Completes(w, s, e, i)
    ensures Inv(w, Next(w, s, e)) && Finished(w, i, Next(w, s, e).Of(i))
  {
    StepKeepsInv(w, s, e);
    if e.Deliver? {
      DeliverKeepsInv(w, s, e);
    } else {
      assert PartyOk(w, i, s.Of(i));
    }
  }

  /** A device that has just completed is free again: it may ask at once, whomever and whenever. */
  lemma CompletedIsFree(w: World, s: Sys, e: Event, i: Id)
    requires Inv(w, s) && Enabled(w, s, e) && Completes(w, s, e, i)
    ensures var n := Next(w, s, e);
            && !n.Of(i).dev.busy && !n.Of(i).txBusy && !n.Of(i).dev.completeAfterTx
            && Ready(n) && forall dst, at, ok :: Enabled(w, n, Request(i, dst, at, ok))
  {
    StepKeepsInv(w, s, e);
    if e.Deliver? {
      var (p, f) := (s.Of(i), e.flight);
      assert PartyOk(w, i, p);
      var o := Answer(w, i, p, f, e.ldeError, e.startOk);
      CompletionFrees(p.dev, f.wire, RxTime(w, i, Arrival(w, f)), p.txTime, e.ldeError, e.startOk);
      assert Next(w, s, e).Of(i).dev == o.dev;
    }
  }

  /** A frame that completes an exchange at once sends nothing. */
  lemma CompletionFrees(d: Device, w: Wire, ts: U64, txTime: U32, ldeError: bool, startOk: bool)
    requires Valid(d)
    ensures var o := OnRx(d, w, ts, txTime, ldeError, startOk);
            o.completed ==> o.sent.None? && !o.dev.busy && o.dev.completeAfterTx == d.completeAfterTx
  {}

  /** Over every run. */
  lemma CompletedCanAsk(w: World, s0: Sys, es: seq<Event>, s: Sys, e: Event, i: Id)
    requires Initial(s0) && Run(w, s0, es, s) && Ready(s) && Enabled(w, s, e) && Completes(w, s, e, i)
    ensures var n := Next(w, s, e);
            !n.Of(i).dev.busy && Ready(n) && forall dst, at, ok :: Enabled(w, n, Request(i, dst, at, ok))
  {
    InitialInv(w, s0);
    RunKeepsInv(w, s0, es, s);
    CompletedIsFree(w, s, e, i);
  }

  /** No device is ever stuck: at most the end of its transmission and a timeout set it free. */
  lemma CanGetFree(w: World, s: Sys, i: Id) returns (es: seq<Event>, t: Sys)
    requires Inv(w, s)
    ensures |es| <= 2 && Run(w, s, es, t) && Inv(w, t) && !t.Of(i).dev.busy && !t.Of(i).txBusy
  {
    var m := s;
    es := [];
    if s.Of(i).txBusy {
      QuietKeepsInv(w, s, TxDone(i));
      m := Next(w, s, TxDone(i));
      es := [TxDone(i)];
      assert es[1..] == [];
    }
    assert Run(w, s, es, m);
    t := m;
    if m.Of(i).dev.busy {
      QuietKeepsInv(w, m, Timeout(i));
      t := Next(w, m, Timeout(i));
      FollowedBy(w, s, es, m, Timeout(i));
      es := es + [Timeout(i)];
    }
  }

  /** One more event at the end of a short run. */
  lemma FollowedBy(w: World, s: Sys, es: seq<Event>, m: Sys, e: Event)
    requires Ready(s) && |es| <= 1 && Run(w, s, es, m) && Ready(m) && Enabled(w, m, e)
    ensures Run(w, s, es + [e], Next(w, m, e))
  {
    assert [e][1..] == [] && (es == [] ==> es + [e] == [e]);
    if es != [] {
      assert es[1..] == [] && (es + [e])[0] == es[0] && (es + [e])[1..] == [e];
      NextReady(w, s, es[0]);
      assert Run(w, m, [e], Next(w, m, e));
    }
  }

  /**
   After any run: a device that completes has the eight stamps of the exchange that it has just
   finished in its cells `idx-1` and `idx` if the exchange was not tangled, and, unless some event of
   its receivers' past bears the same stamp as another one, only then.  Exactly, it has them if and
   only if the receivers' stamps and cells matched when they were read.
   */
  lemma CompletedExchangeIff(w: World, s0: Sys, es: seq<Event>, s: Sys, e: Event, i: Id)
    requires Initial(s0) && Run(w, s0, es, s) && Ready(s) && Enabled(w, s, e) && Completes(w, s, e, i)
    ensures var p := Next(w, s, e).Of(i);
            && Inv(w, Next(w, s, e)) && HopsFly(w, p.turn)
            && |p.turn.hops| >= (if i == p.turn.initiator then 4 else 3)
            && (Untangled(p.turn, i) ==> HoldsExchange(w, p.turn, p.dev))
            && (StampsTell(w, p.turn, i) && HoldsExchange(w, p.turn, p.dev) ==> Untangled(p.turn, i))
            && (HoldsExchange(w, p.turn, p.dev) <==> Matched(w, p.turn, i))
  {
    InitialInv(w, s0);
    RunKeepsInv(w, s0, es, s);
    CompletesFinished(w, s, e, i);
    var p := Next(w, s, e).Of(i);
    assert PartyOk(w, i, p);
    OkFlies(w, p.turn);
    if Untangled(p.turn, i) { UntangledMatches(w, p.turn, i); }
    if Matched(w, p.turn, i) && StampsTell(w, p.turn, i) { MatchedIsUntangled(w, p.turn, i); }
  }

  // ----- When nothing gets tangled -----

  /** The frame answers what the device sent last, and the device accepted nothing since. */
  ghost predicate Follows(p: Party, c: Chain) {
    var last := |c.hops| - 1;
    && (last >= 0 ==> p.lastSent == Some(c.hops[last].sentAt))
    && (last >= 1 ==> p.turn == Chain(c.initiator, c.hops[..last]) && p.sentAt == Some(c.hops[last].sentAt))
  }

  ghost predicate Clean(c: Chain) {
    && (forall k :: 1 <= k < |c.hops| ==> Latest(c, k))
    && (forall k :: 2 <= k < |c.hops| ==> Kept(c, k))
  }

  /** A device only accepts frames that answer what it did last. */
  ghost predicate Orderly(w: World, s: Sys, e: Event) {
    e.Deliver? ==>
      var p := s.Of(Other(e.flight.from));
      Accepts(p.dev, e.flight.wire) ==> Follows(p, e.flight.chain)
  }

  ghost predicate AllClean(s: Sys) {
    Clean(s.a.turn) && Clean(s.b.turn) && forall f :: f in s.air ==> Clean(f.chain)
  }

  /** A frame that follows a clean exchange keeps it clean. */
  lemma FollowsClean(w: World, p: Party, f: Flight)
    requires Valid(p.dev) && Follows(p, f.chain) && Clean(f.chain)
    ensures Clean(Joined(w, p, f))
  {
    var (c, j) := (f.chain, Joined(w, p, f));
    forall k | 1 <= k < |j.hops| ensures Latest(j, k) {
      assert k < |c.hops| ==> Latest(c, k);
    }
    forall k | 2 <= k < |j.hops| ensures Kept(j, k) {
      assert j.hops[..k - 1] == c.hops[..k - 1];
      assert k < |c.hops| ==> Kept(c, k);
    }
  }

  /** An accepted frame makes the next turn, which the reply carries on. */
  lemma HearTurn(w: World, i: Id, p: Party, f: Flight, ldeError: bool, startOk: bool, replyAt: real)
    requires Valid(p.dev)
    ensures var (q, sent) := Hear(w, i, p, f, ldeError, startOk, replyAt);
            && (forall g :: g in sent ==>
                  && Accepts(p.dev, f.wire) && g.from == i && g.chain == q.turn
                  && q.sentAt == q.lastSent == Some(g.sentAt))
            && (forall g, h :: g in sent && h in sent ==> g == h)
            && q.turn == (if Accepts(p.dev, f.wire) then Joined(w, p, f) else p.turn)
  {}

  lemma DeliveredClean(s: Sys, f: Flight, p: Party, sent: set<Flight>)
    requires AllClean(s) && Clean(p.turn) && forall g :: g in sent ==> Clean(g.chain)
    ensures AllClean(Delivered(s, f, p, sent))
  {}

  lemma OrderlyKeepsClean(w: World, s: Sys, e: Event)
    requires Inv(w, s) && Enabled(w, s, e) && AllClean(s) && Orderly(w, s, e)
    ensures AllClean(Next(w, s, e))
  {
    if e.Deliver? {
      var f := e.flight;
      var to := Other(f.from);
      assert PartyOk(w, to, s.Of(to));
      var (q, sent) := Hear(w, to, s.Of(to), f, e.ldeError, e.startOk, e.replyAt);
      HearTurn(w, to, s.Of(to), f, e.ldeError, e.startOk, e.replyAt);
      if Accepts(s.Of(to).dev, f.wire) { FollowsClean(w, s.Of(to), f); }
      DeliveredClean(s, f, q, sent);
    }
  }

  /** All steps of the run are orderly. */
  ghost predicate OrderlyRun(w: World, s: Sys, es: seq<Event>)
    requires Ready(s)
    decreases |es|
  {
    es == [] || (Orderly(w, s, es[0]) && (NextReady(w, s, es[0]); OrderlyRun(w, Next(w, s, es[0]), es[1..])))
  }

  lemma {:induction false} OrderlyRunKeepsClean(w: World, s: Sys, es: seq<Event>, s': Sys)
    requires Inv(w, s) && Run(w, s, es, s') && AllClean(s) && OrderlyRun(w, s, es)
    ensures AllClean(s')
    decreases |es|
  {
    if es == [] {
    } else {
      StepKeepsInv(w, s, es[0]);
      OrderlyKeepsClean(w, s, es[0]);
      OrderlyRunKeepsClean(w, Next(w, s, es[0]), es[1..], s');
    }
  }

  lemma CleanHolds(w: World, i: Id, p: Party)
    requires PartyOk(w, i, p) && Finished(w, i, p) && Clean(p.turn)
    ensures HoldsExchange(w, p.turn, p.dev)
  {
    assert Latest(p.turn, 1) && Latest(p.turn, 2);
    UntangledMatches(w, p.turn, i);
  }

  lemma OrderlyCompletion(w: World, s: Sys, e: Event, i: Id)
    requires Inv(w, s) && Enabled(w, s, e) && Completes(w, s, e, i) && AllClean(s) && Orderly(w, s, e)
    ensures var p := Next(w, s, e).Of(i);
            Inv(w, Next(w, s, e)) && HopsFly(w, p.turn) && HoldsExchange(w, p.turn, p.dev)
  {
    OrderlyKeepsClean(w, s, e);
    CompletesFinished(w, s, e, i);
    var p := Next(w, s, e).Of(i);
    assert PartyOk(w, i, p);
    OkFlies(w, p.turn);
    CleanHolds(w, i, p);
  }

  /** In an orderly run every completed exchange is in the right cells. */
  lemma OrderlyExchange(w: World, s0: Sys, es: seq<Event>, s: Sys, e: Event, i: Id)
    requires Initial(s0) && Run(w, s0, es, s) && Ready(s) && Enabled(w, s, e) && Completes(w, s, e, i)
    requires OrderlyRun(w, s0, es) && Orderly(w, s, e)
    ensures var p := Next(w, s, e).Of(i);
            Inv(w, Next(w, s, e)) && HopsFly(w, p.turn) && HoldsExchange(w, p.turn, p.dev)
  {
    InitialInv(w, s0);
    RunKeepsInv(w, s0, es, s);
    OrderlyRunKeepsClean(w, s0, es, s);
    OrderlyCompletion(w, s, e, i);
  }

  // ----- Requests that wait until nothing is under way -----

  ghost predicate Calm(s: Sys, e: Event) { e.Request? ==> s.air == {} }

  /** The frame is its sender's last word, and answers its receiver's. */
  ghost predicate LastWord(w: World, s: Sys, f: Flight)
    requires Ready(s)
  {
    var p := s.Of(f.from);
    && p.lastSent == Some(f.sentAt) && Follows(s.Of(Other(f.from)), f.chain)
    && (f.chain.hops != [] ==> p.turn == f.chain && p.sentAt == Some(f.sentAt))
    && (|f.chain.hops| == 3 ==> HoldsExchange(w, f.chain, p.dev))
  }

  ghost predicate OneAtATime(w: World, s: Sys)
    requires Ready(s)
  {
    && (forall f, g :: f in s.air && g in s.air ==> f == g)
    && (forall f :: f in s.air ==> LastWord(w, s, f))
  }

  ghost predicate CalmInv(w: World, s: Sys) {
    Inv(w, s) && AllClean(s) && OneAtATime(w, s)
  }

  lemma CalmIsOrderly(w: World, s: Sys, e: Event)
    requires CalmInv(w, s) && Enabled(w, s, e)
    ensures Orderly(w, s, e)
  {
    if e.Deliver? { assert LastWord(w, s, e.flight); }
  }

  /** The reply becomes the last word. */
  lemma ReplyIsLastWord(w: World, s: Sys, f: Flight, p: Party, sent: set<Flight>, hop: Hop)
    requires Ready(s) && OneAtATime(w, s) && f in s.air && Valid(p.dev) && hop.sentAt == f.sentAt
    requires forall g, h :: g in sent && h in sent ==> g == h
    requires forall g :: g in sent ==>
      && g.from == Other(f.from) && g.chain == p.turn && p.sentAt == p.lastSent == Some(g.sentAt)
      && p.turn == Chain(f.chain.initiator, f.chain.hops + [hop])
      && (|g.chain.hops| == 3 ==> HoldsExchange(w, g.chain, p.dev))
    ensures Ready(Delivered(s, f, p, sent)) && OneAtATime(w, Delivered(s, f, p, sent))
  {
    var n := Delivered(s, f, p, sent);
    assert LastWord(w, s, f);
    forall g | g in n.air ensures LastWord(w, n, g) {
      assert g.chain.hops[..|f.chain.hops|] == f.chain.hops;
    }
  }

  lemma T2NotAnswered(w: World, i: Id, p: Party, f: Flight, e: Event)
    requires Heard(w, i, p, f, e) && f.wire.code == CODE_DS_TWR_T2 && e.ldeError
    ensures Hear(w, i, p, f, e.ldeError, e.startOk, e.replyAt).1 == {}
  {
    IgnoredEffect(p.dev, f.wire, RxTime(w, i, Arrival(w, f)), p.txTime, e.ldeError, e.startOk);
  }

  /** A report is sent by a device that holds the exchange. */
  lemma ReportIsRight(w: World, i: Id, p: Party, f: Flight, e: Event, peer: U16)
    requires Heard(w, i, p, f, e) && FlightOk(w, f, peer, p.dev.cfg.address)
    requires Clean(Hear(w, i, p, f, e.ldeError, e.startOk, e.replyAt).0.turn)
    ensures var (q, sent) := Hear(w, i, p, f, e.ldeError, e.startOk, e.replyAt);
            |q.turn.hops| == 3 && sent != {} ==> HoldsExchange(w, q.turn, q.dev)
  {
    if Accepts(p.dev, f.wire) && IsT2(w, f, peer, p.dev.cfg.address) {
      if e.ldeError {
        T2NotAnswered(w, i, p, f, e);
      } else {
        T2Party(w, i, p, f, e, peer);
        CleanHolds(w, i, Hear(w, i, p, f, e.ldeError, e.startOk, e.replyAt).0);
      }
    }
  }

  lemma DeliverKeepsOne(w: World, s: Sys, e: Event)
    requires CalmInv(w, s) && Enabled(w, s, e) && e.Deliver? && AllClean(Next(w, s, e))
    ensures Ready(Next(w, s, e)) && OneAtATime(w, Next(w, s, e))
  {
    var f := e.flight;
    var to := Other(f.from);
    var p := s.Of(to);
    assert PartyOk(w, to, p);
    var (q, sent) := Hear(w, to, p, f, e.ldeError, e.startOk, e.replyAt);
    HearTurn(w, to, p, f, e.ldeError, e.startOk, e.replyAt);
    ReportIsRight(w, to, p, f, e, s.Of(f.from).dev.cfg.address);
    ReplyIsLastWord(w, s, f, q, sent, HopOf(w, p, f));
  }

  /** Same ring, index and turn. */
  ghost predicate SameTurn(p: Party, q: Party) {
    && p.dev.ring == q.dev.ring && p.dev.idx == q.dev.idx
    && p.turn == q.turn && p.sentAt == q.sentAt && p.lastSent == q.lastSent
  }

  lemma QuietStep(w: World, s: Sys, n: Sys)
    requires Ready(s) && OneAtATime(w, s) && SameTurn(s.a, n.a) && SameTurn(s.b, n.b) && n.air <= s.air
    ensures Ready(n) && OneAtATime(w, n)
  {
    forall f | f in n.air ensures LastWord(w, n, f) {
      assert LastWord(w, s, f);
    }
  }

  lemma RequestKeepsOne(w: World, s: Sys, e: Event)
    requires Inv(w, s) && Enabled(w, s, e) && e.Request? && s.air == {}
    ensures Ready(Next(w, s, e)) && OneAtATime(w, Next(w, s, e))
  {}

  lemma CalmKeepsInv(w: World, s: Sys, e: Event)
    requires CalmInv(w, s) && Enabled(w, s, e) && Calm(s, e)
    ensures CalmInv(w, Next(w, s, e))
  {
    CalmIsOrderly(w, s, e);
    StepKeepsInv(w, s, e);
    OrderlyKeepsClean(w, s, e);
    if e.Deliver? {
      DeliverKeepsOne(w, s, e);
    } else if e.Request? {
      RequestKeepsOne(w, s, e);
    } else {
      QuietStep(w, s, Next(w, s, e));
    }
  }

  ghost predicate CalmRun(w: World, s: Sys, es: seq<Event>)
    requires Ready(s)
    decreases |es|
  {
    es == [] || (Calm(s, es[0]) && (NextReady(w, s, es[0]); CalmRun(w, Next(w, s, es[0]), es[1..])))
  }

  lemma {:induction false} CalmRunIsOrderly(w: World, s: Sys, es: seq<Event>, s': Sys)
    requires CalmInv(w, s) && Run(w, s, es, s') && CalmRun(w, s, es)
    ensures OrderlyRun(w, s, es) && CalmInv(w, s')
    decreases |es|
  {
    if es == [] {
    } else {
      CalmIsOrderly(w, s, es[0]);
      CalmKeepsInv(w, s, es[0]);
      CalmRunIsOrderly(w, Next(w, s, es[0]), es[1..], s');
    }
  }

  /**
   In every run whose requests wait until no frame is under way, whatever is lost and whoever
   times out: a device that completes holds the eight stamps of the exchange that just took
   place, and when the initiator completes both devices do.
   */
  lemma CompletedExchange(w: World, s0: Sys, es: seq<Event>, s: Sys, e: Event, i: Id)
    requires Initial(s0) && Run(w, s0, es, s) && Ready(s) && Enabled(w, s, e) && Completes(w, s, e, i)
    requires CalmRun(w, s0, es)
    ensures var n := Next(w, s, e);
            var c := n.Of(i).turn;
            && Inv(w, n) && HopsFly(w, c) && HoldsExchange(w, c, n.Of(i).dev)
            && (i == c.initiator ==> HoldsExchange(w, c, n.Of(Other(i)).dev))
  {
    InitialInv(w, s0);
    CalmRunIsOrderly(w, s0, es, s);
    CalmIsOrderly(w, s, e);
    OrderlyCompletion(w, s, e, i);
    if e.Deliver? {
      InitiatorCompletes(w, s, e, i);
    } else {
      assert PartyOk(w, i, s.Of(i));
    }
  }

  lemma InitiatorCompletes(w: World, s: Sys, e: Event, i: Id)
    requires CalmInv(w, s) && Enabled(w, s, e) && e.Deliver? && Completes(w, s, e, i)
    ensures var n := Next(w, s, e);
            i == n.Of(i).turn.initiator ==> HoldsExchange(w, n.Of(i).turn, n.Of(Other(i)).dev)
  {
    var f := e.flight;
    var p := s.Of(i);
    assert LastWord(w, s, f);
    DeliverKeepsInv(w, s, e);
    HearTurn(w, i, p, f, e.ldeError, e.startOk, e.replyAt);
    if Accepts(p.dev, f.wire) {
      if |f.chain.hops| == 3 { SameExchange(w, f.chain, HopOf(w, p, f), s.Of(f.from).dev); }
    } else {
      IgnoredEffect(p.dev, f.wire, RxTime(w, i, Arrival(w, f)), p.txTime, e.ldeError, e.startOk);
    }
  }

  /** The report adds nothing to what its sender holds. */
  lemma SameExchange(w: World, c: Chain, last: Hop, d: Device)
    requires Valid(d) && |c.hops| == 3 && HoldsExchange(w, c, d)
    ensures HoldsExchange(w, Chain(c.initiator, c.hops + [last]), d)
  {}
}
