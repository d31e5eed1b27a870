/**
 Runs that exist.  An undisturbed exchange completes on both sides, with replies at the times the
 radios are programmed for; and an initiator that gives up and asks again while the first reply is
 under way can end in an exchange that both sides complete with a wrong stamp.
 */
module TwrDsProgress {
  import opened Common
  import opened TwrDs
  import opened TwrDsRuns

  /** The counter of a running clock shows any given 40-bit value again later. */
  lemma CounterComesBack(c: Clock, marker: int, after: real) returns (x: real)
    requires c.rate > 0.0 && 0 <= marker < TWO40
    ensures x > after && Ticks(c, x) % TWO40 == marker
  {
    var turns := Reading(c, after).Floor / TWO40 + 1;
    var n := marker + TWO40 * turns;
    assert n > Reading(c, after).Floor + 0 && n as real > Reading(c, after);
    x := (n as real - c.offset) / c.rate;
    ReadsBack(c, n as real, x);
    Later(c, after, x);
  }

  lemma ReadsBack(c: Clock, v: real, x: real)
    requires c.rate > 0.0 && x == (v - c.offset) / c.rate
    ensures Reading(c, x) == v
  {}

  lemma Later(c: Clock, x: real, y: real)
    requires c.rate > 0.0 && Reading(c, x) < Reading(c, y)
    ensures x < y
  {
    if y <= x { NotLater(c.rate, y, x); }
  }

  lemma NotLater(rate: real, y: real, x: real)
    requires rate > 0.0 && y <= x
    ensures rate * y <= rate * x
  {}

  // ----- Putting runs together -----

  lemma {:induction false} RunConcat(w: World, s: Sys, es: seq<Event>, m: Sys, fs: seq<Event>, t: Sys)
    requires Ready(s) && Run(w, s, es, m) && Ready(m) && Run(w, m, fs, t)
    ensures Run(w, s, es + fs, t)
    decreases |es|
  {
    if es == [] {
      assert es + fs == fs;
    } else {
      NextReady(w, s, es[0]);
      RunConcat(w, Next(w, s, es[0]), es[1..], m, fs, t);
      assert (es + fs)[0] == es[0] && (es + fs)[1..] == es[1..] + fs;
    }
  }

  lemma RunOne(w: World, s: Sys, e: Event)
    requires Ready(s) && Enabled(w, s, e)
    ensures Run(w, s, [e], Next(w, s, e))
  {
    NextReady(w, s, e);
    assert [e][1..] == [];
  }

  lemma RunTwo(w: World, s: Sys, e: Event, f: Event)
    requires Ready(s) && Enabled(w, s, e) && Ready(Next(w, s, e)) && Enabled(w, Next(w, s, e), f)
    ensures Run(w, s, [e, f], Next(w, Next(w, s, e), f))
  {
    RunOne(w, s, e);
    RunOne(w, Next(w, s, e), f);
    RunConcat(w, s, [e], Next(w, s, e), [f], Next(w, Next(w, s, e), f));
    assert [e] + [f] == [e, f];
  }

  ghost predicate NoRequest(es: seq<Event>) { forall k :: 0 <= k < |es| ==> !es[k].Request? }

  lemma {:induction false} NoRequestIsCalm(w: World, s: Sys, es: seq<Event>, t: Sys)
    requires Ready(s) && Run(w, s, es, t) && NoRequest(es)
    ensures CalmRun(w, s, es)
    decreases |es|
  {
    if es == [] {
    } else {
      NextReady(w, s, es[0]);
      NoRequestIsCalm(w, Next(w, s, es[0]), es[1..], t);
    }
  }

  // ----- The four messages -----

  ghost predicate Running(w: World) { w.a.rate > 0.0 && w.b.rate > 0.0 }

  /** Good reception with a successful start; the reply leaves when the radio is programmed to. */
  lemma CanDeliver(w: World, s: Sys, f: Flight) returns (e: Event)
    requires Running(w) && Ready(s) && f in s.air && !s.Of(Other(f.from)).txBusy
    ensures e.Deliver? && e.flight == f && !e.ldeError && e.startOk && Enabled(w, s, e)
  {
    var to := Other(f.from);
    var o := Answer(w, to, s.Of(to), f, false, true);
    var x := Arrival(w, f) + 1.0;
    if o.sent.Some? {
      x := CounterComesBack(w.Of(to), MarkerTime(s.Of(to).dev.cfg, o.sent.value.delay), Arrival(w, f));
    }
    e := Deliver(f, false, true, x);
  }

  /** The request of `i` is under way to a device that listens. */
  ghost predicate RequestSent(w: World, s: Sys, i: Id, f: Flight) {
    && Inv(w, s) && f in s.air && f.from == i && IsRequest(w, f, s.Of(i).dev.cfg.address)
    && f.wire.dst == s.Of(Other(i)).dev.cfg.address
    && s.Of(i).dev.busy && !s.Of(i).txBusy && s.Of(i).txTime == Stamp(w, i, f.sentAt)
    && s.Of(Other(i)).dev.busy && !s.Of(Other(i)).txBusy
  }

  /** The first reply is scheduled, in answer to the request that made hop `h`. */
  ghost predicate T1Sent(w: World, s: Sys, i: Id, f: Flight, h: Hop) {
    var (own, peer) := (s.Of(Other(i)).dev.cfg.address, s.Of(i).dev.cfg.address);
    && Inv(w, s) && f in s.air && f.from == Other(i) && IsT1(w, f, own, peer) && f.chain.hops == [h]
    && s.Of(i).dev.busy && !s.Of(i).txBusy
    && s.Of(Other(i)).dev.busy && s.Of(Other(i)).txBusy && !s.Of(Other(i)).dev.completeAfterTx
  }

  /** The second message is scheduled; it and the initiator's cell say the request left at stamp `x`. */
  ghost predicate T2Sent(w: World, s: Sys, i: Id, f: Flight, h: Hop, x: int) {
    var (own, peer) := (s.Of(i).dev.cfg.address, s.Of(Other(i)).dev.cfg.address);
    && Inv(w, s) && f in s.air && f.from == i && IsT2(w, f, own, peer) && f.chain.hops[0] == h
    && f.wire.request == x && CellAt(s.Of(i).dev, s.Of(i).dev.idx).request == x
    && s.Of(i).dev.busy && s.Of(i).txBusy && !s.Of(i).dev.completeAfterTx
    && s.Of(Other(i)).dev.busy && !s.Of(Other(i)).txBusy
  }

  /** The report is scheduled; both rings say the request left at stamp `x`. */
  ghost predicate FinalSent(w: World, s: Sys, i: Id, f: Flight, h: Hop, x: int) {
    var (own, peer) := (s.Of(Other(i)).dev.cfg.address, s.Of(i).dev.cfg.address);
    && Inv(w, s) && f in s.air && f.from == Other(i) && IsFinal(w, f, own, peer) && f.chain.hops[0] == h
    && CellAt(s.Of(i).dev, s.Of(i).dev.idx).request == x && s.Of(i).dev.busy && !s.Of(i).txBusy
    && s.Of(Other(i)).turn == f.chain && s.Of(Other(i)).txBusy && s.Of(Other(i)).dev.completeAfterTx
    && CellAt(s.Of(Other(i)).dev, PrevIdx(s.Of(Other(i)).dev.idx)).request == x
  }

  /** A free device asks the other one, and its transmission ends. */
  lemma Ask(w: World, s: Sys, i: Id, at: real) returns (e: Event, t: Sys, f: Flight)
    requires Inv(w, s) && !s.Of(i).dev.busy && !s.Of(i).txBusy && !s.Of(i).dev.completeAfterTx
    ensures e.Request? && Run(w, s, [e, TxDone(i)], t) && Inv(w, t)
    ensures t.Of(Other(i)) == s.Of(Other(i)) && t.air == s.air + {f} && f.from == i && f.sentAt == at
    ensures IsRequest(w, f, s.Of(i).dev.cfg.address) && f.wire.dst == s.Of(Other(i)).dev.cfg.address
    ensures t.Of(i).dev.cfg == s.Of(i).dev.cfg
    ensures t.Of(i).dev.busy && !t.Of(i).txBusy && t.Of(i).txTime == Stamp(w, i, at)
  {
    var d := s.Of(i).dev;
    var o := OnRequest(d, s.Of(Other(i)).dev.cfg.address, true);
    f := Flight(i, o.sent.value.wire, at, Chain(i, []));
    e := Request(i, s.Of(Other(i)).dev.cfg.address, at, true);
    var m := Next(w, s, e);
    RequestKeepsInv(w, s, e);
    QuietKeepsInv(w, m, TxDone(i));
    t := Next(w, m, TxDone(i));
    RunTwo(w, s, e, TxDone(i));
  }

  ghost predicate Free(p: Party) { !p.dev.busy && !p.txBusy && !p.dev.completeAfterTx }

  /** Both devices are free and nothing is on the air, whatever happened before. */
  ghost predicate Resting(w: World, s: Sys) { Inv(w, s) && Free(s.a) && Free(s.b) && s.air == {} }

  lemma InitialRests(w: World, s: Sys)
    requires Initial(s)
    ensures Resting(w, s)
  {
    InitialInv(w, s);
  }

  lemma Begin(w: World, s: Sys, i: Id, at: real) returns (es: seq<Event>, t: Sys, f: Flight)
    requires Resting(w, s)
    ensures Run(w, s, es, t) && CalmRun(w, s, es) && RequestSent(w, t, i, f) && f.sentAt == at && t.air == {f}
  {
    var e0 := Listen(Other(i), true);
    var s1 := Next(w, s, e0);
    QuietKeepsInv(w, s, e0);
    var e1;
    e1, t, f := Ask(w, s1, i, at);
    RunOne(w, s, e0);
    RunConcat(w, s, [e0], s1, [e1, TxDone(i)], t);
    es := [e0] + [e1, TxDone(i)];
    BeginCalm(w, s, e0, e1, i);
  }

  lemma BeginCalm(w: World, s: Sys, e0: Event, e1: Event, i: Id)
    requires Ready(s) && s.air == {} && e0.Listen? && e1.Request?
    ensures CalmRun(w, s, [e0] + [e1, TxDone(i)])
  {
    var es := [e0] + [e1, TxDone(i)];
    NextReady(w, s, e0);
    NextReady(w, Next(w, s, e0), e1);
    assert es[0] == e0 && es[1..] == [e1, TxDone(i)];
    assert es[1..][0] == e1 && es[1..][1..] == [TxDone(i)] && [TxDone(i)][1..] == [];
    NextReady(w, Next(w, Next(w, s, e0), e1), TxDone(i));
    assert CalmRun(w, Next(w, Next(w, s, e0), e1), [TxDone(i)]);
    assert CalmRun(w, Next(w, s, e0), es[1..]);
  }

  lemma AnswerRequest(w: World, s: Sys, i: Id, f: Flight) returns (e: Event, t: Sys, g: Flight, h: Hop)
    requires Running(w) && RequestSent(w, s, i, f)
    ensures Enabled(w, s, e) && t == Next(w, s, e) && T1Sent(w, t, i, g, h) && h.sentAt == f.sentAt && !e.Request?
    ensures t.Of(i) == s.Of(i) && (s.air == {f} ==> t.air == {g})
  {
    var r := Other(i);
    e := CanDeliver(w, s, f);
    RequestEffect(s.Of(r).dev, f.wire, RxTime(w, r, Arrival(w, f)), s.Of(r).txTime, false, true);
    HearRequest(w, r, s.Of(r), f, e, s.Of(i).dev.cfg.address);
    DeliverKeepsInv(w, s, e);
    t := Next(w, s, e);
    var c := Joined(w, s.Of(r), f);
    h := c.hops[0];
    g :| g in Hear(w, r, s.Of(r), f, false, true, e.replyAt).1;
    assert PartyOk(w, r, s.Of(r));
  }

  /** The initiator gives up and asks again, at a time of its choosing; the reply stays under way. */
  lemma AskAgain(w: World, s: Sys, i: Id, f: Flight, h: Hop, again: real) returns (es: seq<Event>, t: Sys)
    requires T1Sent(w, s, i, f, h)
    ensures Run(w, s, es, t) && T1Sent(w, t, i, f, h) && t.Of(i).txTime == Stamp(w, i, again)
  {
    assert PartyOk(w, i, s.Of(i));
    var s1 := Next(w, s, Timeout(i));
    QuietKeepsInv(w, s, Timeout(i));
    var e1, g;
    e1, t, g := Ask(w, s1, i, again);
    RunOne(w, s, Timeout(i));
    RunConcat(w, s, [Timeout(i)], s1, [e1, TxDone(i)], t);
    es := [Timeout(i)] + [e1, TxDone(i)];
  }

  /** The one frame that a delivery sends. */
  lemma T1Reply(w: World, i: Id, p: Party, f: Flight, e: Event, peer: U16) returns (q: Party, g: Flight)
    requires Heard(w, i, p, f, e) && IsT1(w, f, peer, p.dev.cfg.address) && p.dev.busy && !e.ldeError && e.startOk
    ensures Hear(w, i, p, f, false, true, e.replyAt) == (q, {g})
    ensures IsT2(w, g, p.dev.cfg.address, peer) && g.from == i && g.chain.hops[0] == f.chain.hops[0]
    ensures g.wire.request == p.txTime && CellAt(q.dev, q.dev.idx).request == p.txTime
    ensures q.dev.busy && q.txBusy && !q.dev.completeAfterTx && q.dev.cfg == p.dev.cfg
  {
    T1Effect(p.dev, f.wire, RxTime(w, i, Arrival(w, f)), p.txTime, true);
    HearT1(w, i, p, f, e, peer);
    q := Hear(w, i, p, f, false, true, e.replyAt).0;
    g :| g in Hear(w, i, p, f, false, true, e.replyAt).1;
  }

  /** The sender's radio is done, so that the frame can be answered. */
  lemma SendingEnds(w: World, s: Sys, r: Id) returns (m: Sys)
    requires Inv(w, s) && s.Of(r).txBusy && !s.Of(r).dev.completeAfterTx
    ensures Inv(w, m) && Run(w, s, [TxDone(r)], m) && m.air == s.air && m.Of(Other(r)) == s.Of(Other(r))
    ensures !m.Of(r).txBusy && m.Of(r).dev.cfg == s.Of(r).dev.cfg && m.Of(r).dev.busy == s.Of(r).dev.busy
    ensures m.Of(r).dev.idx == s.Of(r).dev.idx && m.Of(r).dev.ring == s.Of(r).dev.ring
  {
    QuietKeepsInv(w, s, TxDone(r));
    m := Next(w, s, TxDone(r));
    RunOne(w, s, TxDone(r));
  }

  /** The first reply has been sent and its sender listens again. */
  ghost predicate T1Due(w: World, m: Sys, i: Id, f: Flight, h: Hop, x: int) {
    && Inv(w, m) && f in m.air && f.from == Other(i)
    && IsT1(w, f, m.Of(Other(i)).dev.cfg.address, m.Of(i).dev.cfg.address) && f.chain.hops == [h]
    && m.Of(i).dev.busy && !m.Of(i).txBusy && m.Of(Other(i)).dev.busy && !m.Of(Other(i)).txBusy
    && m.Of(i).txTime == x
  }

  lemma T1BecomesDue(w: World, s: Sys, i: Id, f: Flight, h: Hop) returns (m: Sys)
    requires T1Sent(w, s, i, f, h)
    ensures T1Due(w, m, i, f, h, s.Of(i).txTime) && Run(w, s, [TxDone(Other(i))], m) && m.air == s.air
  {
    m := SendingEnds(w, s, Other(i));
  }

  lemma TakeT1(w: World, m: Sys, i: Id, f: Flight, h: Hop, x: int) returns (e: Event, t: Sys, g: Flight)
    requires Running(w) && T1Due(w, m, i, f, h, x)
    ensures !e.Request? && Run(w, m, [e], t) && T2Sent(w, t, i, g, h, x) && (m.air == {f} ==> t.air == {g})
  {
    e := CanDeliver(w, m, f);
    assert PartyOk(w, i, m.Of(i)) && Involved(m, f);
    var q;
    q, g := T1Reply(w, i, m.Of(i), f, e, m.Of(Other(i)).dev.cfg.address);
    DeliverKeepsInv(w, m, e);
    t := Next(w, m, e);
    RunOne(w, m, e);
  }

  lemma T2Reply(w: World, r: Id, p: Party, f: Flight, e: Event, peer: U16) returns (q: Party, g: Flight)
    requires Heard(w, r, p, f, e) && IsT2(w, f, peer, p.dev.cfg.address) && p.dev.busy && !e.ldeError && e.startOk
    ensures Hear(w, r, p, f, false, true, e.replyAt) == (q, {g})
    ensures IsFinal(w, g, p.dev.cfg.address, peer) && g.from == r && g.chain.hops[0] == f.chain.hops[0]
    ensures q.turn == g.chain && q.txBusy && q.dev.completeAfterTx && q.dev.cfg == p.dev.cfg
    ensures CellAt(q.dev, PrevIdx(q.dev.idx)).request == f.wire.request
  {
    T2Effect(p.dev, f.wire, RxTime(w, r, Arrival(w, f)), p.txTime, true);
    HearT2(w, r, p, f, e, peer);
    q := Hear(w, r, p, f, false, true, e.replyAt).0;
    g :| g in Hear(w, r, p, f, false, true, e.replyAt).1;
  }

  /** The second message has been sent and its sender listens again. */
  ghost predicate T2Due(w: World, m: Sys, i: Id, f: Flight, h: Hop, x: int) {
    && Inv(w, m) && f in m.air && f.from == i && f.wire.Long? && f.wire.request == x
    && IsT2(w, f, m.Of(i).dev.cfg.address, m.Of(Other(i)).dev.cfg.address) && f.chain.hops[0] == h
    && CellAt(m.Of(i).dev, m.Of(i).dev.idx).request == x
    && m.Of(i).dev.busy && !m.Of(i).txBusy && m.Of(Other(i)).dev.busy && !m.Of(Other(i)).txBusy
  }

  lemma T2BecomesDue(w: World, s: Sys, i: Id, f: Flight, h: Hop, x: int) returns (m: Sys)
    requires T2Sent(w, s, i, f, h, x)
    ensures T2Due(w, m, i, f, h, x) && Run(w, s, [TxDone(i)], m) && m.air == s.air
  {
    m := SendingEnds(w, s, i);
  }

  lemma TakeT2(w: World, m: Sys, i: Id, f: Flight, h: Hop, x: int) returns (e: Event, t: Sys, g: Flight)
    requires Running(w) && T2Due(w, m, i, f, h, x)
    ensures !e.Request? && Run(w, m, [e], t) && FinalSent(w, t, i, g, h, x) && (m.air == {f} ==> t.air == {g})
  {
    var r := Other(i);
    e := CanDeliver(w, m, f);
    assert PartyOk(w, r, m.Of(r)) && Involved(m, f);
    var q;
    q, g := T2Reply(w, r, m.Of(r), f, e, m.Of(i).dev.cfg.address);
    DeliverKeepsInv(w, m, e);
    t := Next(w, m, e);
    RunOne(w, m, e);
  }

  /** `j` completes an exchange of `i` that began with hop `h`; its first cell has `x` for the request. */
  ghost predicate CompletesWith(w: World, s: Sys, e: Event, j: Id, i: Id, h: Hop, x: int) {
    && Ready(s) && Enabled(w, s, e) && Completes(w, s, e, j)
    && (NextReady(w, s, e);
        var p := Next(w, s, e).Of(j);
        && p.turn.initiator == i && |p.turn.hops| >= 3 && p.turn.hops[0] == h
        && CellAt(p.dev, PrevIdx(p.dev.idx)).request == x)
  }

  /** The responder completes when its report has been sent, the initiator when it receives it. */
  lemma Finish(w: World, s: Sys, i: Id, f: Flight, h: Hop, x: int) returns (t: Sys, last: Event)
    requires Running(w) && FinalSent(w, s, i, f, h, x)
    ensures CompletesWith(w, s, TxDone(Other(i)), Other(i), i, h, x) && t == Next(w, s, TxDone(Other(i)))
    ensures CompletesWith(w, t, last, i, i, h, x) && t.Of(i) == s.Of(i)
    ensures s.air == {f} ==> Resting(w, Next(w, t, last))
  {
    var r := Other(i);
    assert PartyOk(w, r, s.Of(r));
    QuietKeepsInv(w, s, TxDone(r));
    t := Next(w, s, TxDone(r));
    last := CanDeliver(w, t, f);
    NextReady(w, t, last);
    DeliverKeepsInv(w, t, last);
    assert PartyOk(w, i, t.Of(i));
    FinalEffect(t.Of(i).dev, f.wire, RxTime(w, i, Arrival(w, f)), t.Of(i).txTime, false, true);
  }

  /** Two stretches without requests. */
  lemma Join(w: World, s: Sys, es: seq<Event>, m: Sys, fs: seq<Event>, t: Sys)
    requires Ready(s) && Run(w, s, es, m) && Ready(m) && Run(w, m, fs, t) && NoRequest(es) && NoRequest(fs)
    ensures Run(w, s, es + fs, t) && NoRequest(es + fs)
  {
    RunConcat(w, s, es, m, fs, t);
  }

  /** From a scheduled second message to the scheduled report. */
  lemma ToFinal(w: World, s: Sys, i: Id, f: Flight, h: Hop, x: int) returns (es: seq<Event>, mid: Sys, g: Flight)
    requires Running(w) && T2Sent(w, s, i, f, h, x)
    ensures Run(w, s, es, mid) && NoRequest(es) && FinalSent(w, mid, i, g, h, x) && (s.air == {f} ==> mid.air == {g})
  {
    var m := T2BecomesDue(w, s, i, f, h, x);
    var e;
    e, mid, g := TakeT2(w, m, i, f, h, x);
    es := [TxDone(i)] + [e];
    Join(w, s, [TxDone(i)], m, [e], mid);
  }

  /** From a scheduled second message to completion on both sides. */
  lemma FromT2(w: World, s: Sys, i: Id, f: Flight, h: Hop, x: int)
    returns (es: seq<Event>, mid: Sys, end: Sys, last: Event)
    requires Running(w) && T2Sent(w, s, i, f, h, x)
    ensures Run(w, s, es, mid) && NoRequest(es)
    ensures CompletesWith(w, mid, TxDone(Other(i)), Other(i), i, h, x)
    ensures end == Next(w, mid, TxDone(Other(i))) && CompletesWith(w, end, last, i, i, h, x)
    ensures s.air == {f} ==> Resting(w, Next(w, end, last))
  {
    var g;
    es, mid, g := ToFinal(w, s, i, f, h, x);
    end, last := Finish(w, mid, i, g, h, x);
  }

  /** From a scheduled first reply to completion on both sides. */
  lemma FromT1(w: World, s: Sys, i: Id, f: Flight, h: Hop)
    returns (es: seq<Event>, mid: Sys, end: Sys, last: Event)
    requires Running(w) && T1Sent(w, s, i, f, h)
    ensures Run(w, s, es, mid) && NoRequest(es)
    ensures CompletesWith(w, mid, TxDone(Other(i)), Other(i), i, h, s.Of(i).txTime)
    ensures end == Next(w, mid, TxDone(Other(i))) && CompletesWith(w, end, last, i, i, h, s.Of(i).txTime)
    ensures s.air == {f} ==> Resting(w, Next(w, end, last))
  {
    var m := T1BecomesDue(w, s, i, f, h);
    var e, s1, g := TakeT1(w, m, i, f, h, s.Of(i).txTime);
    var rest;
    rest, mid, end, last := FromT2(w, s1, i, g, h, s.Of(i).txTime);
    Join(w, s, [TxDone(Other(i))], m, [e], s1);
    Join(w, s, [TxDone(Other(i))] + [e], s1, rest, mid);
    es := [TxDone(Other(i))] + [e] + rest;
  }

  // ----- Whole exchanges -----

  lemma CalmCons(w: World, s: Sys, e: Event, es: seq<Event>)
    requires Ready(s) && Calm(s, e) && Ready(Next(w, s, e)) && CalmRun(w, Next(w, s, e), es)
    ensures CalmRun(w, s, [e] + es)
  {
    assert ([e] + es)[0] == e && ([e] + es)[1..] == es;
  }

  lemma {:induction false} CalmConcat(w: World, s: Sys, es: seq<Event>, m: Sys, fs: seq<Event>)
    requires Ready(s) && Run(w, s, es, m) && Ready(m) && CalmRun(w, s, es) && CalmRun(w, m, fs)
    ensures CalmRun(w, s, es + fs)
    decreases |es|
  {
    if es == [] {
      assert es + fs == fs;
    } else {
      NextReady(w, s, es[0]);
      var n := Next(w, s, es[0]);
      CalmConcat(w, n, es[1..], m, fs);
      CalmCons(w, s, es[0], es[1..] + fs);
      assert es + fs == [es[0]] + (es[1..] + fs);
    }
  }

  /**
   From every state in which both are free, with clocks that run, either device can range with the
   other: there is a run, with one request, in which the responder completes and then the initiator
   does.  Afterwards both are free, and can do it again.
   */
  lemma ExchangeCanComplete(w: World, s: Sys, i: Id, at: real)
    returns (es: seq<Event>, mid: Sys, end: Sys, last: Event)
    requires Running(w) && Resting(w, s)
    ensures Run(w, s, es, mid) && CalmRun(w, s, es)
    ensures Ready(mid) && Enabled(w, mid, TxDone(Other(i))) && Completes(w, mid, TxDone(Other(i)), Other(i))
    ensures Run(w, s, es + [TxDone(Other(i))], end) && CalmRun(w, s, es + [TxDone(Other(i))])
    ensures Ready(end) && Enabled(w, end, last) && Completes(w, end, last, i)
    ensures Resting(w, Next(w, end, last))
  {
    var e0, s0, f0 := Begin(w, s, i, at);
    var e1, s1, f1, h := AnswerRequest(w, s0, i, f0);
    RunOne(w, s0, e1);
    RunConcat(w, s, e0, s0, [e1], s1);
    NoRequestIsCalm(w, s0, [e1], s1);
    CalmConcat(w, s, e0, s0, [e1]);
    var rest;
    rest, mid, end, last := FromT1(w, s1, i, f1, h);
    RunConcat(w, s, e0 + [e1], s1, rest, mid);
    NoRequestIsCalm(w, s1, rest, mid);
    CalmConcat(w, s, e0 + [e1], s1, rest);
    es := e0 + [e1] + rest;
    var e := TxDone(Other(i));
    RunOne(w, mid, e);
    RunConcat(w, s, es, mid, [e], end);
    NoRequestIsCalm(w, mid, [e], end);
    CalmConcat(w, s, es, mid, [e]);
  }

  /**
   From every idle state: an initiator that times out and asks again while the first reply is under
   way takes that reply for the answer to its second request.  If the two requests bear different
   stamps, there is a run in which both devices complete and neither holds the exchange.
   */
  lemma RestartGetsTangled(w: World, s: Sys, i: Id, at: real, again: real)
    returns (es: seq<Event>, mid: Sys, end: Sys, last: Event)
    requires Running(w) && Initial(s) && Stamp(w, i, at) != Stamp(w, i, again)
    ensures Run(w, s, es, mid) && Ready(mid) && Enabled(w, mid, TxDone(Other(i)))
    ensures Completes(w, mid, TxDone(Other(i)), Other(i)) && end == Next(w, mid, TxDone(Other(i)))
    ensures Ready(end) && !HoldsExchange(w, end.Of(Other(i)).turn, end.Of(Other(i)).dev)
    ensures Enabled(w, end, last) && Completes(w, end, last, i)
    ensures Ready(Next(w, end, last))
    ensures !HoldsExchange(w, Next(w, end, last).Of(i).turn, Next(w, end, last).Of(i).dev)
  {
    InitialRests(w, s);
    var e0, s0, f0 := Begin(w, s, i, at);
    var e1, s1, f1, h := AnswerRequest(w, s0, i, f0);
    var e2, s2 := AskAgain(w, s1, i, f1, h, again);
    var rest;
    rest, mid, end, last := FromT1(w, s2, i, f1, h);
    RunOne(w, s0, e1);
    RunConcat(w, s, e0, s0, [e1], s1);
    RunConcat(w, s, e0 + [e1], s1, e2, s2);
    RunConcat(w, s, e0 + [e1] + e2, s2, rest, mid);
    es := e0 + [e1] + e2 + rest;
    NextReady(w, end, last);
  }
}
