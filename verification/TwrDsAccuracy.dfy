/**
 From the stamps of a completed exchange to the time of flight: what two-device runs leave in
 the ring yields the flight time to within one tick.
 */
module TwrDsAccuracy {
  import opened Common
  import opened RngMath
  import opened TwrDs
  import opened TwrDsRuns

  /** How much clock `c` advances from `x` to `y`. */
  ghost function Span(c: Clock, x: real, y: real): real { Reading(c, y) - Reading(c, x) }

  ghost predicate MeasurableSpan(r: real) { 1.0 <= r <= LONGEST }

  /** Replies and round trips last at least a tick and less than half a turn of the counter. */
  ghost predicate Measurable(w: World, c: Chain) {
    && |c.hops| >= 3 && w.a.rate > 0.0 && w.b.rate > 0.0 && w.tof >= 0.0
    && MeasurableHops(w.Of(c.initiator), w.Of(Other(c.initiator)), c.hops[0], c.hops[1], c.hops[2])
  }

  ghost predicate MeasurableHops(ci: Clock, cr: Clock, h0: Hop, h1: Hop, h2: Hop) {
    && MeasurableSpan(Span(ci, h0.sentAt, h1.arrivedAt)) && MeasurableSpan(Span(cr, h0.arrivedAt, h1.sentAt))
    && MeasurableSpan(Span(cr, h1.sentAt, h2.arrivedAt)) && MeasurableSpan(Span(ci, h1.arrivedAt, h2.sentAt))
  }

  const LONGEST := (TWO31 - 1) as real

  /** The flight time as the harmonic mean of the two clocks counts it. */
  ghost function TrueTof(w: World): real
    requires w.a.rate > 0.0 && w.b.rate > 0.0
  {
    Harmonic(w.tof, w.a.rate, w.b.rate)
  }

  /** Sampling both ends of a span is off by less than a tick. */
  lemma SampledEnds(c: Clock, x: real, y: real)
    requires MeasurableSpan(Span(c, x, y))
    ensures 0 <= Ticks(c, y) - Ticks(c, x) < TWO31
    ensures Distance((Ticks(c, y) - Ticks(c, x)) as real, Span(c, x, y)) < 1.0
  {
    FloorDifference(Reading(c, x), Reading(c, y));
  }

  lemma FloorDifference(u: real, v: real)
    requires 1.0 <= v - u <= LONGEST
    ensures 0 <= v.Floor - u.Floor < TWO31
    ensures Distance((v.Floor - u.Floor) as real, v - u) < 1.0
  {}

  lemma SpanIsRate(c: Clock, x: real, y: real, dt: real)
    requires dt == y - x
    ensures Span(c, x, y) == c.rate * dt
  {}

  /** The unwrapped counter values behind the stamps of an exchange. */
  lemma CounterValues(w: World, c: Chain, d: Device, skew: real)
    returns (q1: int, c1: int, t1: int, p1: int, t2: int, p2: int)
    requires Valid(d) && HoldsExchange(w, c, d)
    ensures q1 == Ticks(w.Of(c.initiator), c.hops[0].sentAt)
    ensures c1 == Ticks(w.Of(Other(c.initiator)), c.hops[0].arrivedAt)
    ensures t1 == Ticks(w.Of(Other(c.initiator)), c.hops[1].sentAt)
    ensures p1 == Ticks(w.Of(c.initiator), c.hops[1].arrivedAt)
    ensures t2 == Ticks(w.Of(c.initiator), c.hops[2].sentAt)
    ensures p2 == Ticks(w.Of(Other(c.initiator)), c.hops[2].arrivedAt)
    ensures TwrToTof(d, d.idx, skew)
         == CalcTofDs(Lo32(p1), Lo32(q1), Lo32(t1), Lo32(c1), Lo32(p2), Lo32(t1), Lo32(t2), Lo32(p1))
  {
    var (ci, cr) := (w.Of(c.initiator), w.Of(Other(c.initiator)));
    q1, c1 := Ticks(ci, c.hops[0].sentAt), Ticks(cr, c.hops[0].arrivedAt);
    t1, p1 := Ticks(cr, c.hops[1].sentAt), Ticks(ci, c.hops[1].arrivedAt);
    t2, p2 := Ticks(ci, c.hops[2].sentAt), Ticks(cr, c.hops[2].arrivedAt);
  }

  /**
   A device that holds a measurable exchange computes a time of flight less than one
   tick away from the true one: neither the clock offsets, nor counter wrap-around, nor
   the reply delays enter.
   */
  lemma TofWithinOneTick(w: World, c: Chain, d: Device, skew: real)
    requires Valid(d) && HopsFly(w, c) && Measurable(w, c) && HoldsExchange(w, c, d)
    ensures var tof := TwrToTof(d, d.idx, skew);
            tof.Tof? && Distance(tof.value, TrueTof(w)) < 1.0
  {
    var q1, c1, t1, p1, t2, p2 := CounterValues(w, c, d, skew);
    var (h0, h1, h2) := (c.hops[0], c.hops[1], c.hops[2]);
    HopsTof(w.Of(c.initiator), w.Of(Other(c.initiator)), h0, h1, h2, w.tof);
    SwapRates(w.tof, w.a.rate, w.b.rate);
  }

  lemma HopsTof(ci: Clock, cr: Clock, h0: Hop, h1: Hop, h2: Hop, t: real)
    requires ci.rate > 0.0 && cr.rate > 0.0 && t >= 0.0
    requires h0.arrivedAt == h0.sentAt + t && h1.arrivedAt == h1.sentAt + t && h2.arrivedAt == h2.sentAt + t
    requires MeasurableHops(ci, cr, h0, h1, h2)
    ensures
      var tof := CalcTofDs(Lo32(Ticks(ci, h1.arrivedAt)), Lo32(Ticks(ci, h0.sentAt)), Lo32(Ticks(cr, h1.sentAt)),
                           Lo32(Ticks(cr, h0.arrivedAt)), Lo32(Ticks(cr, h2.arrivedAt)), Lo32(Ticks(cr, h1.sentAt)),
                           Lo32(Ticks(ci, h2.sentAt)), Lo32(Ticks(ci, h1.arrivedAt)));
      tof.Tof? && Distance(tof.value, Harmonic(t, ci.rate, cr.rate)) < 1.0
  {
    SampledEnds(ci, h0.sentAt, h1.arrivedAt);
    SampledEnds(cr, h0.arrivedAt, h1.sentAt);
    SampledEnds(cr, h1.sentAt, h2.arrivedAt);
    SampledEnds(ci, h1.arrivedAt, h2.sentAt);
    SpansGiveHarmonic(ci, cr, h0, h1, h2, t);
    SampledTof(Span(ci, h0.sentAt, h1.arrivedAt), Span(cr, h1.sentAt, h2.arrivedAt),
               Span(cr, h0.arrivedAt, h1.sentAt), Span(ci, h1.arrivedAt, h2.sentAt),
               Ticks(ci, h0.sentAt), Ticks(cr, h0.arrivedAt), Ticks(cr, h1.sentAt), Ticks(ci, h1.arrivedAt),
               Ticks(ci, h2.sentAt), Ticks(cr, h2.arrivedAt));
  }

  /** The untruncated spans of an exchange: both reply delays cancel. */
  lemma SpansGiveHarmonic(ci: Clock, cr: Clock, h0: Hop, h1: Hop, h2: Hop, t: real)
    requires ci.rate > 0.0 && cr.rate > 0.0 && t >= 0.0
    requires h0.arrivedAt == h0.sentAt + t && h1.arrivedAt == h1.sentAt + t && h2.arrivedAt == h2.sentAt + t
    requires MeasurableHops(ci, cr, h0, h1, h2)
    ensures Quotient(Span(ci, h0.sentAt, h1.arrivedAt), Span(cr, h1.sentAt, h2.arrivedAt),
                     Span(cr, h0.arrivedAt, h1.sentAt), Span(ci, h1.arrivedAt, h2.sentAt))
         == Harmonic(t, ci.rate, cr.rate)
  {
    var (d1, d2) := (h1.sentAt - h0.arrivedAt, h2.sentAt - h1.arrivedAt);
    SpanIsRate(ci, h0.sentAt, h1.arrivedAt, 2.0 * t + d1);
    SpanIsRate(cr, h1.sentAt, h2.arrivedAt, 2.0 * t + d2);
    SpanIsRate(cr, h0.arrivedAt, h1.sentAt, d1);
    SpanIsRate(ci, h1.arrivedAt, h2.sentAt, d2);
    PositiveFactor(cr.rate, d1);
    PositiveFactor(ci.rate, d2);
    DsCancelsReplies(ci.rate, cr.rate, t, d1, d2);
  }

  lemma SampledTof(r1: real, r2: real, s1: real, s2: real,
                   q1: int, c1: int, t1: int, p1: int, t2: int, p2: int)
    requires r1 >= 1.0 && r2 >= 1.0 && s1 >= 1.0 && s2 >= 1.0
    requires 0 <= p1 - q1 < TWO31 && 0 <= p2 - t1 < TWO31 && 0 <= t1 - c1 < TWO31 && 0 <= t2 - p1 < TWO31
    requires Distance((p1 - q1) as real, r1) < 1.0 && Distance((p2 - t1) as real, r2) < 1.0
    requires Distance((t1 - c1) as real, s1) < 1.0 && Distance((t2 - p1) as real, s2) < 1.0
    ensures var tof := CalcTofDs(Lo32(p1), Lo32(q1), Lo32(t1), Lo32(c1), Lo32(p2), Lo32(t1), Lo32(t2), Lo32(p1));
            tof.Tof? && Distance(tof.value, Quotient(r1, r2, s1, s2)) < 1.0
  {
    CalcTofDsUnwraps(q1, p1, t1, c1, t1, p2, t2, p1);
    MeasuredWithinOneTick(r1, r2, s1, s2, (p1 - q1) as real, (p2 - t1) as real, (t1 - c1) as real, (t2 - p1) as real);
  }

  lemma SwapRates(t: real, ka: real, kb: real)
    requires ka > 0.0 && kb > 0.0
    ensures Harmonic(t, ka, kb) == Harmonic(t, kb, ka)
  {
    assert 2.0 * t * ka * kb == 2.0 * t * kb * ka;
  }

  /**
   End to end, for every run: a completed, measurable exchange that did not get tangled yields the
   flight time, whatever the skew estimate is.
   */
  lemma RangingIsAccurate(w: World, s0: Sys, es: seq<Event>, s: Sys, e: Event, i: Id, skew: real)
    requires Initial(s0) && Run(w, s0, es, s) && Ready(s) && Enabled(w, s, e) && Completes(w, s, e, i)
    requires Measurable(w, Next(w, s, e).Of(i).turn)
    requires Matched(w, Next(w, s, e).Of(i).turn, i)
    ensures var d := Next(w, s, e).Of(i).dev;
            Valid(d) && Accurate(w, TwrToTof(d, d.idx, skew))
  {
    CompletedExchangeIff(w, s0, es, s, e, i);
    TofWithinOneTick(w, Next(w, s, e).Of(i).turn, Next(w, s, e).Of(i).dev, skew);
  }

  ghost predicate Accurate(w: World, tof: Tof)
    requires w.a.rate > 0.0 && w.b.rate > 0.0
  {
    tof.Tof? && Distance(tof.value, TrueTof(w)) < 1.0
  }

  /** When requests wait until no frame is under way, both devices know it once the initiator completes. */
  lemma CalmRangingIsAccurate(w: World, s0: Sys, es: seq<Event>, s: Sys, e: Event, i: Id, skew: real)
    requires Initial(s0) && Run(w, s0, es, s) && Ready(s) && Enabled(w, s, e) && Completes(w, s, e, i)
    requires CalmRun(w, s0, es) && Measurable(w, Next(w, s, e).Of(i).turn)
    ensures var n := Next(w, s, e);
            && Ready(n) && Accurate(w, TwrToTof(n.Of(i).dev, n.Of(i).dev.idx, skew))
            && (i == n.Of(i).turn.initiator ==>
                  Accurate(w, TwrToTof(n.Of(Other(i)).dev, n.Of(Other(i)).dev.idx, skew)))
  {
    CompletedExchange(w, s0, es, s, e, i);
    var n := Next(w, s, e);
    TofWithinOneTick(w, n.Of(i).turn, n.Of(i).dev, skew);
    if i == n.Of(i).turn.initiator {
      TofWithinOneTick(w, n.Of(i).turn, n.Of(Other(i)).dev, skew);
    }
  }
}
