/**
 The master of clock calibration packets: `ccp_send` plans each transmission one period after
 the previous one, `tx_complete_cb` or the start-error branch moves on.
 */
module CcpMaster {
  import opened CcpRelay
  import opened Common
  import Ring = TwrDs

  const MAX_RPTS := 4

  const TWO24 := 0x100_0000

  datatype Setup = Setup(antenna: U16, euid: nat, addr: nat, toMarker: U16)

  /** `idx`, the frame ring, the sequence number, the epoch and the period. */
  datatype State = State(idx: nat, frames: seq<Blink>, seqno: nat, epoch: nat, period: U32)

  predicate Ok(s: State) {
    && s.idx < TWO16 && |s.frames| > 1
    && forall k :: 0 <= k < |s.frames| ==> s.frames[k].stamp < TWO64 && s.frames[k].interval < TWO40
  }

  function Floor512(x: nat): nat { x - x % 512 }

  /** The planned marker time after a frame stamped `prev`: the start is on the 512-tick grid. */
  function Planned(c: Setup, period: nat, prev: nat): nat {
    W64(Floor512(W64(prev + period * TWO16)) + c.antenna)
  }

  function Next(s: State, c: Setup): Blink
    requires Ok(s)
  {
    Blink(c.euid, (s.seqno + 1) % 256, c.addr, s.period * TWO16 % TWO40,
          Planned(c, s.period, s.frames[s.idx % |s.frames|].stamp), 0, MAX_RPTS, c.toMarker)
  }

  /** `ccp_send` up to the start of the transmission. */
  function Plan(s: State, c: Setup): State
    requires Ok(s)
  {
    s.(frames := s.frames[(s.idx + 1) % |s.frames| := Next(s, c)], seqno := (s.seqno + 1) % 256)
  }

  /** `tx_complete_cb`: the period is read back from the 40-bit interval of the frame. */
  function Complete(s: State): State
    requires Ok(s)
  {
    var idx := (s.idx + 1) % TWO16;
    var f := s.frames[idx % |s.frames|];
    s.(idx := idx, epoch := W64(f.stamp - f.toMarker * TWO16), period := f.interval / TWO16)
  }

  /** The start-error branch of `ccp_send`. */
  function Miss(s: State): State
    requires Ok(s)
  {
    var k := s.idx % |s.frames|;
    var f := s.frames[(s.idx + 1) % |s.frames|];
    s.(frames := s.frames[k := s.frames[k].(stamp := W64(f.stamp + s.period * TWO16))],
       idx := (s.idx + 1) % TWO16, epoch := W64(s.epoch + s.period * TWO16))
  }

  function Attempt(s: State, c: Setup, ok: bool): (r: State)
    requires Ok(s)
    ensures Ok(r) && |r.frames| == |s.frames|
  {
    if ok then Complete(Plan(s, c)) else Miss(Plan(s, c))
  }

  class Master {
    const setup: Setup
    const frames: array<Blink>
    var idx: nat
    var seqno: nat
    var epoch: nat
    var period: U32

    ghost function St(): State
      reads this, frames
    {
      State(idx, frames[..], seqno, epoch, period)
    }

    constructor (setup: Setup, period: U32, nframes: nat, blank: Blink)
      requires nframes > 1 && InRange(blank)
      ensures Ok(St()) && fresh(frames) && this.setup == setup && this.period == period && idx == 0
    {
      this.setup, this.period := setup, period;
      frames := new Blink[nframes](_ => blank);
      idx, seqno, epoch := 0, 0, 0;
    }

    /** `ccp_send`; on success the completion callback follows. */
    method Send(startError: bool) returns (sent: Blink)
      requires Ok(St())
      modifies this, frames
      ensures St() == if startError then Attempt(old(St()), setup, false) else Plan(old(St()), setup)
      ensures sent == Next(old(St()), setup)
    {
      ghost var s := St();
      var prev := idx % frames.Length;
      var cell := (idx + 1) % frames.Length;
      var stamp := W64(frames[prev].stamp + period * TWO16);
      stamp := stamp - stamp % 512;
      stamp := W64(stamp + setup.antenna);
      seqno := (seqno + 1) % 256;
      sent := Blink(setup.euid, seqno, setup.addr, period * TWO16 % TWO40, stamp, 0, MAX_RPTS, setup.toMarker);
      frames[cell] := sent;
      assert St() == Plan(s, setup);
      if startError { StartError(); }
    }

    /** The start-error branch. */
    method StartError()
      requires Ok(St())
      modifies this`idx, this`epoch, frames
      ensures St() == Miss(old(St()))
    {
      var prev := idx % frames.Length;
      var cell := (idx + 1) % frames.Length;
      frames[prev] := frames[prev].(stamp := W64(frames[cell].stamp + period * TWO16));
      idx := (idx + 1) % TWO16;
      epoch := W64(epoch + period * TWO16);
    }

    method TxComplete()
      requires Ok(St())
      modifies this`idx, this`epoch, this`period
      ensures St() == Complete(old(St()))
    {
      idx := (idx + 1) % TWO16;
      var f := frames[idx % frames.Length];
      epoch, period := W64(f.stamp - f.toMarker * TWO16), f.interval / TWO16;
    }
  }

  // ----- Runs -----

  type Step = (State, bool) -> State

  /** One attempt, as a function of the state and the outcome. */
  function Attempting(c: Setup): Step {
    (s: State, ok: bool) => if Ok(s) then Attempt(s, c, ok) else s
  }

  /** The states that a master goes through, by the outcomes of its attempts. */
  ghost predicate Run(step: Step, states: seq<State>, outcomes: seq<bool>) {
    && |states| == |outcomes| + 1 && Ok(states[0])
    && forall k :: 0 <= k < |outcomes| ==> states[k + 1] == step(states[k], outcomes[k])
  }

  /** There is such a run for all outcomes. */
  lemma {:induction false} RunExists(step: Step, s: State, outcomes: seq<bool>) returns (states: seq<State>)
    requires Ok(s) && Advances(step)
    ensures Run(step, states, outcomes) && states[0] == s
    decreases |outcomes|
  {
    if outcomes == [] {
      states := [s];
    } else {
      assert AdvancesAt(step, s, outcomes[0]);
      var rest := RunExists(step, step(s, outcomes[0]), outcomes[1..]);
      states := [s] + rest;
      forall k | 0 <= k < |outcomes| ensures states[k + 1] == step(states[k], outcomes[k]) {
        if k > 0 { assert outcomes[k] == outcomes[1..][k - 1]; }
      }
    }
  }

  /** The incremented 16-bit index and the index plus one select the same cell. */
  predicate Regular(idx: nat, n: nat)
    requires n > 0
  {
    idx != 0xffff || TWO16 % n == 0
  }

  /** What an attempt leaves as the period: a success cuts it to the 24 bits that the interval has for it. */
  function PeriodAfter(period: U32, ok: bool): U32 { if ok then period % TWO24 else period }

  /** The attempt advances the index; the ring keeps its size. */
  ghost predicate AdvancesAt(step: Step, s: State, ok: bool) {
    var r := step(s, ok);
    Ok(s) ==>
      && Ok(r) && r.idx == (s.idx + 1) % TWO16 && |r.frames| == |s.frames|
      && (Regular(s.idx, |s.frames|) ==> r.period == PeriodAfter(s.period, ok))
  }

  ghost predicate Advances(step: Step) { forall s: State, ok: bool :: AdvancesAt(step, s, ok) }

  lemma AttemptAdvances(c: Setup)
    ensures Advances(Attempting(c))
  {
    forall s: State, ok: bool ensures AdvancesAt(Attempting(c), s, ok) {
      if Ok(s) && Regular(s.idx, |s.frames|) { PlannedIsNextPrevious(s, c, ok); }
    }
  }

  lemma NextIndex(i: nat)
    ensures (i % TWO16 + 1) % TWO16 == (i + 1) % TWO16
  {}

  lemma RegularCells(idx: nat, n: nat)
    requires idx < TWO16 && n > 1 && Regular(idx, n)
    ensures (idx + 1) % TWO16 % n == (idx + 1) % n != idx % n
  {
    Ring.NeighboursDiffer(idx, n);
    assert (idx + 1) % TWO16 == if idx == 0xffff then 0 else idx + 1;
  }

  /** Whatever the outcome, the frame just planned is the previous frame of the next attempt. */
  lemma PlannedIsNextPrevious(s: State, c: Setup, ok: bool)
    requires Ok(s) && Regular(s.idx, |s.frames|)
    ensures var r := Attempt(s, c, ok);
            r.frames[r.idx % |r.frames|] == Next(s, c) && r.period == PeriodAfter(s.period, ok)
  {
    RegularCells(s.idx, |s.frames|);
    IntervalPeriod(s.period);
  }

  lemma IntervalPeriod(period: nat)
    ensures period * TWO16 % TWO40 == period % TWO24 * TWO16
  {
    var (q, r) := (period / TWO24, period % TWO24);
    assert period == TWO24 * q + r;
    Is40(period * TWO16, q, r * TWO16);
  }

  /** What is sent has the master's own fields and the next sequence number, which an attempt that fails uses up too. */
  lemma AttemptEffect(s: State, c: Setup, ok: bool)
    requires Ok(s)
    ensures Attempt(s, c, ok).seqno == Next(s, c).seqno
    ensures var f := Next(s, c);
            && f.euid == c.euid && f.addr == c.addr && f.toMarker == c.toMarker && f.rpt == 0 && f.rptMax == 4
            && f.seqno == (if s.seqno % 256 == 255 then 0 else s.seqno % 256 + 1)
  {
    NextNumber(s.seqno);
  }

  lemma NextNumber(n: nat)
    ensures (n + 1) % 256 == if n % 256 == 255 then 0 else n % 256 + 1
  {}

  /** A start error leaves the cell before with a stamp one period after the frame that was not sent. */
  lemma MissedCell(s: State, c: Setup)
    requires Ok(s) && Regular(s.idx, |s.frames|)
    ensures
      var (r, f, k) := (Attempt(s, c, false), Next(s, c), s.idx % |s.frames|);
      r.frames[k] == s.frames[k].(stamp := W64(f.stamp + s.period * TWO16))
  {
    RegularCells(s.idx, |s.frames|);
  }

  // ----- Two attempts in a row -----

  /** The distance of planned times that the period gives. */
  function Spacing(period: nat, c: Setup): nat { period * TWO16 + Floor512(c.antenna) }

  /** One step of the grid, in numbers. */
  lemma GridStep(c: Setup, period: nat, later: nat, prev: nat)
    ensures Planned(c, later, Planned(c, period, prev)) == W64(Planned(c, period, prev) + Spacing(later, c))
  {
    var p := period * TWO16;
    assert p == 512 * (128 * period) && later * TWO16 == 512 * (128 * later);
    var base := W64(prev + p);
    Aligned(base / 512, c.antenna, later * TWO16, 128 * later);
    assert Floor512(base) == 512 * (base / 512);
  }

  lemma Same512(x: int, y: int, k: int)
    requires x == y + 512 * k
    ensures x % 512 == y % 512
  {}

  lemma Aligned(x: int, antenna: nat, p: int, k: int)
    requires p == 512 * k
    ensures
      var t := W64(512 * x + antenna);
      W64(Floor512(W64(t + p)) + antenna) == W64(t + (p + Floor512(antenna)))
  {
    var t := W64(512 * x + antenna);
    var q := Split64(512 * x + antenna);
    var u := W64(t + p);
    var r := Split64(t + p);
    Same512(u, antenna, x - 0x80_0000_0000_0000 * q + k - 0x80_0000_0000_0000 * r);
    assert Floor512(u) + antenna == u + Floor512(antenna);
    Wrap64(t + p, Floor512(antenna));
  }

  /** The planned time after `x`, by the period that an attempt leaves. */
  function Following(x: nat, c: Setup, period: U32, ok: bool): nat { W64(x + Spacing(PeriodAfter(period, ok), c)) }

  /** Two attempts in a row plan times apart by the spacing of the period then in force. */
  lemma AttemptStep(s: State, c: Setup, ok: bool)
    requires Ok(s) && Regular(s.idx, |s.frames|)
    ensures Next(Attempt(s, c, ok), c).stamp == Following(Next(s, c).stamp, c, s.period, ok)
  {
    PlannedIsNextPrevious(s, c, ok);
    GridStep(c, s.period, PeriodAfter(s.period, ok), s.frames[s.idx % |s.frames|].stamp);
  }

  /** Two attempts in a row plan times apart by the master's period and the antenna delay rounded down to 512. */
  ghost predicate StepsByPeriod(s: State, c: Setup, ok: bool)
    requires Ok(s)
  {
    Next(Attempt(s, c, ok), c).stamp == W64(Next(s, c).stamp + Spacing(s.period, c))
  }

  ghost predicate AlwaysStepsByPeriod(idx: nat, n: nat, period: nat) {
    forall s: State, c: Setup, ok: bool ::
      Ok(s) && s.idx == idx && |s.frames| == n && s.period == period ==> StepsByPeriod(s, c, ok)
  }

  lemma StepsByPeriodIff(s: State, c: Setup, ok: bool)
    requires Ok(s) && Regular(s.idx, |s.frames|)
    ensures StepsByPeriod(s, c, ok) <==> !ok || s.period < TWO24
  {
    AttemptStep(s, c, ok);
    SpacingKept(Next(s, c).stamp, Next(Attempt(s, c, ok), c).stamp, c, s.period, ok);
  }

  lemma SpacingKept(x: nat, y: nat, c: Setup, period: U32, ok: bool)
    requires y == Following(x, c, period, ok)
    ensures y == W64(x + Spacing(period, c)) <==> !ok || period < TWO24
  {
    var later := PeriodAfter(period, ok);
    AddIff(x + Spacing(later, c), (period - later) * TWO16);
  }

  /**
   In every state with this index, ring size and period, whatever the outcome, if and only if the
   wrapping index selects the right cell and the period has 24 bits.
   */
  lemma AlwaysStepsByPeriodIff(idx: nat, n: nat, period: U32)
    requires idx < TWO16 && n > 1
    ensures AlwaysStepsByPeriod(idx, n, period) <==> Regular(idx, n) && period < TWO24
  {
    if Regular(idx, n) {
      forall s: State, c: Setup, ok: bool | Ok(s) && s.idx == idx && |s.frames| == n && s.period == period
        ensures StepsByPeriod(s, c, ok) <==> !ok || period < TWO24
      {
        StepsByPeriodIff(s, c, ok);
      }
      var s := Blank(idx, n, period);
      assert StepsByPeriod(s, Setup(512, 0, 0, 0), true) <==> period < TWO24;
    } else {
      var s := Blank(idx, n, period);
      LostAt(s, Setup(512, 0, 0, 0), n, TWO16 % n);
    }
  }

  /** A ring in which only the period has been set. */
  lemma Blank(idx: nat, n: nat, period: U32) returns (s: State)
    requires idx < TWO16 && n > 1
    ensures Ok(s) && s.idx == idx && |s.frames| == n && s.period == period
    ensures forall k :: 0 <= k < n ==> s.frames[k].stamp == 0 && s.frames[k].interval == 0
  {
    var blank := Blink(0, 0, 0, 0, 0, 0, 0, 0);
    s := State(idx, seq(n, _ => blank), 0, 0, period);
    assert forall k :: 0 <= k < n ==> s.frames[k] == blank;
  }

  /** Where the index wraps in another ring, the attempt after it plans from the wrong cell. */
  lemma LostAt(s: State, c: Setup, n: nat, cell: nat)
    requires Ok(s) && |s.frames| == n && s.idx == 0xffff && cell == TWO16 % n != 0 && c.antenna == 512
    requires forall k :: 0 <= k < n ==> s.frames[k].stamp == 0 && s.frames[k].interval == 0
    ensures !StepsByPeriod(s, c, true)
  {
    WrongCell(s, c, n, cell);
    var r := Attempt(s, c, true);
    assert s.frames[s.idx % n].stamp == 0 && r.frames[r.idx % n].stamp == 0;
    FirstPlanned(c, s.period);
    FirstPlanned(c, 0);
    NotTwice(c, s.period);
  }

  lemma WrongCell(s: State, c: Setup, n: nat, cell: nat)
    requires Ok(s) && |s.frames| == n && s.idx == 0xffff && cell == TWO16 % n != 0 && s.frames[0].interval == 0
    ensures var r := Attempt(s, c, true); r.idx % n == 0 && r.frames[0] == s.frames[0] && r.period == 0
  {
    var p := Plan(s, c);
    assert (s.idx + 1) % n == cell && p.frames[0] == s.frames[0] && p.idx == 0xffff;
    assert 0 % n == 0;
  }

  lemma NotTwice(c: Setup, period: U32)
    requires c.antenna == 512
    ensures W64(period * TWO16 + 512 + Spacing(period, c)) != 512
  {
    Is64(period * TWO16 + 512 + Spacing(period, c), 0, 2 * (period * TWO16) + 1024);
  }

  lemma FirstPlanned(c: Setup, period: U32)
    requires c.antenna == 512
    ensures Planned(c, period, 0) == period * TWO16 + 512
  {
    Is64(period * TWO16, 0, period * TWO16);
    Same512(period * TWO16, 0, 128 * period);
    Is64(period * TWO16 + 512, 0, period * TWO16 + 512);
  }

  // ----- The grid of a run -----

  /** The stamp that the next attempt plans. */
  function PlannedStamp(c: Setup): State -> nat {
    (s: State) => if Ok(s) then Next(s, c).stamp else 0
  }

  /** Two attempts in a row plan times apart by the spacing of the period that the first leaves. */
  ghost predicate SpacedAt(step: Step, stamp: State -> nat, d: nat -> nat, s: State, ok: bool) {
    Ok(s) && Regular(s.idx, |s.frames|) ==> stamp(step(s, ok)) == W64(stamp(s) + d(PeriodAfter(s.period, ok)))
  }

  ghost predicate Spaced(step: Step, stamp: State -> nat, d: nat -> nat) {
    forall s: State, ok: bool :: SpacedAt(step, stamp, d, s, ok)
  }

  lemma StampOf(c: Setup, s: State)
    requires Ok(s)
    ensures PlannedStamp(c)(s) == Next(s, c).stamp
  {}

  function SpacingOf(c: Setup): nat -> nat { (period: nat) => Spacing(period, c) }

  lemma AttemptsSpacedAt(c: Setup, s: State, ok: bool)
    ensures SpacedAt(Attempting(c), PlannedStamp(c), SpacingOf(c), s, ok)
  {
    if Ok(s) && Regular(s.idx, |s.frames|) {
      var r := Attempt(s, c, ok);
      assert Attempting(c)(s, ok) == r;
      StampOf(c, s);
      StampOf(c, r);
      AttemptStep(s, c, ok);
      FollowingIs(Next(s, c).stamp, c, s.period, ok);
    }
  }

  lemma FollowingIs(x: nat, c: Setup, period: U32, ok: bool)
    ensures Following(x, c, period, ok) == W64(x + SpacingOf(c)(PeriodAfter(period, ok)))
  {}

  lemma AttemptsSpaced(c: Setup)
    ensures Spaced(Attempting(c), PlannedStamp(c), SpacingOf(c))
  {
    forall s: State, ok: bool ensures SpacedAt(Attempting(c), PlannedStamp(c), SpacingOf(c), s, ok) {
      AttemptsSpacedAt(c, s, ok);
    }
  }

  /** How many of the first `k` attempts come before the first success. */
  function Lead(outcomes: seq<bool>, k: nat): (r: nat)
    requires k <= |outcomes|
    ensures r <= k && (r == k <==> forall j :: 0 <= j < k ==> !outcomes[j])
  {
    if k == 0 then 0
    else if Lead(outcomes, k - 1) == k - 1 && !outcomes[k - 1] then k
    else Lead(outcomes, k - 1)
  }

  /** No attempt before the `k`-th finds the index about to wrap in a ring whose size does not divide 65536. */
  predicate RegularUntil(s: State, k: nat)
    requires |s.frames| > 0
  {
    TWO16 % |s.frames| == 0 || s.idx + k < TWO16
  }

  lemma {:induction false} RunIdx(step: Step, states: seq<State>, outcomes: seq<bool>, k: nat)
    requires Run(step, states, outcomes) && Advances(step) && k <= |outcomes| && RegularUntil(states[0], k)
    ensures Ok(states[k]) && |states[k].frames| == |states[0].frames|
    ensures states[k].idx == (states[0].idx + k) % TWO16
    ensures states[k].period == PeriodIn(states[0].period, outcomes, k)
  {
    if k == 0 {
    } else {
      RunIdx(step, states, outcomes, k - 1);
      StepIdx(step, states[0], states[k - 1], outcomes[k - 1], k, states[k]);
      LeadPeriod(states[0].period, states[k - 1].period, outcomes, k);
    }
  }

  /** The period after `k` attempts. */
  function PeriodIn(first: U32, outcomes: seq<bool>, k: nat): U32
    requires k <= |outcomes|
  {
    if Lead(outcomes, k) == k then first else first % TWO24
  }

  /** One attempt in a run. */
  lemma StepIdx(step: Step, first: State, s: State, ok: bool, k: nat, r: State)
    requires Advances(step) && k > 0 && Ok(first) && Ok(s) && |s.frames| == |first.frames| && r == step(s, ok)
    requires s.idx == (first.idx + k - 1) % TWO16 && RegularUntil(first, k)
    ensures Ok(r) && |r.frames| == |first.frames| && r.idx == (first.idx + k) % TWO16
    ensures r.period == PeriodAfter(s.period, ok)
  {
    assert AdvancesAt(step, s, ok);
    RegularAt(first, s, k);
    NextIndex(first.idx + k - 1);
  }

  lemma RegularAt(first: State, s: State, k: nat)
    requires k > 0 && |first.frames| > 1 && |s.frames| == |first.frames| && RegularUntil(first, k)
    requires s.idx == (first.idx + k - 1) % TWO16
    ensures Regular(s.idx, |s.frames|)
  {}

  lemma LeadPeriod(first: U32, period: U32, outcomes: seq<bool>, k: nat)
    requires 0 < k <= |outcomes| && period == PeriodIn(first, outcomes, k - 1)
    ensures PeriodAfter(period, outcomes[k - 1]) == PeriodIn(first, outcomes, k)
  {}

  /** Planned times as a function of how many attempts count with each of two spacings. */
  type Grid = (nat, nat) -> nat

  function GridFrom(first: nat, d: nat, d': nat): Grid { (a: nat, b: nat) => W64(first + a * d + b * d') }

  ghost predicate StepsAt(at: Grid, d: nat, d': nat, a: nat, b: nat) {
    at(a + 1, b) == W64(at(a, b) + d) && at(a, b + 1) == W64(at(a, b) + d')
  }

  ghost predicate Steps(at: Grid, d: nat, d': nat) { forall a: nat, b: nat :: StepsAt(at, d, d', a, b) }

  lemma GridSteps(first: nat, d: nat, d': nat)
    ensures Steps(GridFrom(first, d, d'), d, d')
  {
    forall a: nat, b: nat ensures StepsAt(GridFrom(first, d, d'), d, d', a, b) { OneMore(first, a, b, d, d'); }
  }

  lemma OneMore(first: nat, a: nat, b: nat, d: nat, d': nat)
    ensures
      var x := first + a * d + b * d';
      W64(W64(x) + d) == W64(first + (a + 1) * d + b * d') && W64(W64(x) + d') == W64(first + a * d + (b + 1) * d')
  {
    Wrap64(first + a * d + b * d', d);
    Wrap64(first + a * d + b * d', d');
    assert (a + 1) * d == a * d + d && (b + 1) * d' == b * d' + d';
  }

  lemma GridAt(first: nat, d: nat, d': nat, a: nat, b: nat)
    ensures GridFrom(first, d, d')(a, b) == W64(first + a * d + b * d')
  {}

  lemma GridStart(first: nat, d: nat, d': nat)
    requires first < TWO64
    ensures GridFrom(first, d, d')(0, 0) == first
  {
    Is64(first, 0, first);
  }

  lemma {:induction false} SpacedRun(step: Step, stamp: State -> nat, d: nat -> nat, at: Grid, states: seq<State>,
                                     outcomes: seq<bool>, k: nat)
    requires Run(step, states, outcomes) && Advances(step) && Spaced(step, stamp, d) && k <= |outcomes|
    requires RegularUntil(states[0], k) && stamp(states[0]) == at(0, 0)
    requires Steps(at, d(states[0].period), d(states[0].period % TWO24))
    ensures stamp(states[k]) == at(Lead(outcomes, k), k - Lead(outcomes, k))
  {
    if k == 0 {
    } else {
      SpacedRun(step, stamp, d, at, states, outcomes, k - 1);
      RunIdx(step, states, outcomes, k - 1);
      assert SpacedAt(step, stamp, d, states[k - 1], outcomes[k - 1]);
      var l := Lead(outcomes, k - 1);
      NextOnGrid(at, d, states[0].period, l, k - 1 - l, states[k - 1].period, outcomes[k - 1]);
    }
  }

  lemma NextOnGrid(at: Grid, d: nat -> nat, p: U32, l: nat, m: nat, period: U32, ok: bool)
    requires Steps(at, d(p), d(p % TWO24)) && period == if m == 0 then p else p % TWO24
    ensures W64(at(l, m) + d(PeriodAfter(period, ok))) == if m == 0 && !ok then at(l + 1, m) else at(l, m + 1)
  {
    assert StepsAt(at, d(p), d(p % TWO24), l, m);
  }

  /** The time that the next attempt plans after `l` attempts with one period and `m` with its low 24 bits. */
  function OnGrid(first: nat, c: Setup, p: nat, l: nat, m: nat): nat {
    W64(first + l * Spacing(p, c) + m * Spacing(p % TWO24, c))
  }

  /**
   Over every run of successes and start errors, until the index wraps in a ring whose size does
   not divide 65536, the k-th planned time is the first one plus exactly the spacing of the period
   for every start error before the first success, and the spacing of its low 24 bits for every
   attempt from then on.  Rounding does not accumulate.
   */
  lemma PlannedInRun(c: Setup, states: seq<State>, outcomes: seq<bool>, k: nat)
    requires Run(Attempting(c), states, outcomes) && k <= |outcomes| && RegularUntil(states[0], k)
    ensures Ok(states[k])
    ensures
      var l := Lead(outcomes, k);
      Next(states[k], c).stamp == OnGrid(Next(states[0], c).stamp, c, states[0].period, l, k - l)
  {
    AttemptAdvances(c);
    AttemptsSpaced(c);
    RunIdx(Attempting(c), states, outcomes, k);
    StampOf(c, states[0]);
    StampOf(c, states[k]);
    var (first, p, l) := (PlannedStamp(c)(states[0]), states[0].period, Lead(outcomes, k));
    var at := GridFrom(first, SpacingOf(c)(p), SpacingOf(c)(p % TWO24));
    GridStart(first, SpacingOf(c)(p), SpacingOf(c)(p % TWO24));
    GridSteps(first, SpacingOf(c)(p), SpacingOf(c)(p % TWO24));
    SpacedRun(Attempting(c), PlannedStamp(c), SpacingOf(c), at, states, outcomes, k);
    OnGridAt(first, c, p, l, k - l);
  }

  lemma OnGridAt(first: nat, c: Setup, p: nat, l: nat, m: nat)
    ensures GridFrom(first, SpacingOf(c)(p), SpacingOf(c)(p % TWO24))(l, m) == OnGrid(first, c, p, l, m)
  {
    GridAt(first, Spacing(p, c), Spacing(p % TWO24, c), l, m);
  }

  /**
   So the first 65536 attempts are on the grid of the master's period if and only if the period has 24
   bits or none of them succeeds.
   */
  lemma PlannedOnGridIff(c: Setup, states: seq<State>, outcomes: seq<bool>, k: nat)
    requires Run(Attempting(c), states, outcomes) && k <= |outcomes| && k <= TWO16 && RegularUntil(states[0], k)
    ensures Ok(states[k])
    ensures
      Next(states[k], c).stamp == W64(Next(states[0], c).stamp + k * Spacing(states[0].period, c))
      <==> states[0].period < TWO24 || forall j :: 0 <= j < k ==> !outcomes[j]
  {
    PlannedInRun(c, states, outcomes, k);
    var l := Lead(outcomes, k);
    OneSpacingIff(Next(states[0], c).stamp, c, states[0].period, l, k - l);
  }

  /** Both spacings agree over the whole run. */
  lemma OneSpacingIff(first: nat, c: Setup, p: U32, l: nat, m: nat)
    requires m <= TWO16
    ensures OnGrid(first, c, p, l, m) == W64(first + (l + m) * Spacing(p, c)) <==> p < TWO24 || m == 0
  {
    var (d, d', q) := (Spacing(p, c), Spacing(p % TWO24, c), p / TWO24);
    assert d == d' + TWO40 * q;
    Shortfall(first + l * d + m * d', m, q);
    SumOfSteps(first, l, m, d, d', q);
  }

  lemma SumOfSteps(first: nat, l: nat, m: nat, d: nat, d': nat, q: nat)
    requires d == d' + TWO40 * q
    ensures first + (l + m) * d == first + l * d + m * d' + TWO40 * (m * q)
  {
    assert (l + m) * d == l * d + m * d;
    assert m * d == m * d' + m * (TWO40 * q) && m * (TWO40 * q) == TWO40 * (m * q);
  }

  lemma Shortfall(x: nat, m: nat, q: nat)
    requires m <= TWO16 && q < 256
    ensures W64(x) == W64(x + TWO40 * (m * q)) <==> m == 0 || q == 0
  {
    assert m * q <= TWO16 * 255;
    AddIff(x, TWO40 * (m * q));
    if m > 0 && q > 0 { assert m * q > 0; }
  }

  /** Whatever the number of attempts, a period of 24 bits is kept. */
  lemma PlannedOnGrid(c: Setup, states: seq<State>, outcomes: seq<bool>, k: nat)
    requires Run(Attempting(c), states, outcomes) && k <= |outcomes| && RegularUntil(states[0], k)
    requires states[0].period < TWO24
    ensures Ok(states[k])
    ensures Next(states[k], c).stamp == W64(Next(states[0], c).stamp + k * Spacing(states[0].period, c))
  {
    PlannedInRun(c, states, outcomes, k);
    SameSpacing(Next(states[0], c).stamp, c, states[0].period, Lead(outcomes, k), k - Lead(outcomes, k));
  }

  lemma SameSpacing(first: nat, c: Setup, p: nat, l: nat, m: nat)
    requires p < TWO24
    ensures OnGrid(first, c, p, l, m) == W64(first + (l + m) * Spacing(p, c))
  {
    var d := Spacing(p, c);
    assert (l + m) * d == l * d + m * d;
  }

  // ----- The epoch in a run -----

  /** What an attempt leaves as the epoch, from the planned time and the flight from start to marker. */
  ghost predicate EpochAt(step: Step, stamp: State -> nat, back: nat, s: State, ok: bool) {
    Ok(s) && Regular(s.idx, |s.frames|) ==>
      step(s, ok).epoch == if ok then W64(stamp(s) - back) else W64(s.epoch + s.period * TWO16)
  }

  ghost predicate Epochs(step: Step, stamp: State -> nat, back: nat) {
    forall s: State, ok: bool :: EpochAt(step, stamp, back, s, ok)
  }

  lemma AttemptEpoch(s: State, c: Setup, ok: bool)
    requires Ok(s) && Regular(s.idx, |s.frames|)
    ensures Attempt(s, c, ok).epoch
         == if ok then W64(Next(s, c).stamp - c.toMarker * TWO16) else W64(s.epoch + s.period * TWO16)
  {
    RegularCells(s.idx, |s.frames|);
  }

  lemma AttemptEpochs(c: Setup)
    ensures Epochs(Attempting(c), PlannedStamp(c), c.toMarker * TWO16)
  {
    forall s: State, ok: bool ensures EpochAt(Attempting(c), PlannedStamp(c), c.toMarker * TWO16, s, ok) {
      if Ok(s) && Regular(s.idx, |s.frames|) {
        AttemptEpoch(s, c, ok);
        StampOf(c, s);
        assert Attempting(c)(s, ok) == Attempt(s, c, ok);
      }
    }
  }

  lemma BehindMore(marker: nat, back: nat, misses: nat, lost: nat, period: nat, d: nat)
    requires d == period * TWO16 + lost
    ensures W64(W64(marker - back - misses * lost) + period * TWO16)
         == W64(W64(marker + d) - back - (misses + 1) * lost)
  {
    var x := marker - back - misses * lost;
    assert (misses + 1) * lost == misses * lost + lost;
    Wrap64(x, period * TWO16);
    var less: int := back + (misses + 1) * lost;
    Wrap64(marker + d, -less);
  }

  ghost predicate LagsAt(epoch: Grid, d: nat -> nat, marker: nat, misses: nat, period: nat) {
    W64(epoch(marker, misses) + period * TWO16) == epoch(W64(marker + d(period)), misses + 1)
  }

  ghost predicate Lags(epoch: Grid, d: nat -> nat) {
    forall marker: nat, misses: nat, period: nat :: LagsAt(epoch, d, marker, misses, period)
  }

  ghost predicate StartsFrom(epoch: Grid, back: nat) { forall marker: nat :: epoch(marker, 0) == W64(marker - back) }

  /** The epoch as a function of the last planned time and of the start errors since the last success. */
  lemma EpochFrom(c: Setup, back: nat, marker: nat, misses: nat) returns (epoch: Grid)
    ensures Lags(epoch, SpacingOf(c)) && StartsFrom(epoch, back)
    ensures epoch(marker, misses) == W64(marker - back - misses * Floor512(c.antenna))
  {
    var lost := Floor512(c.antenna);
    epoch := (marker: nat, misses: nat) => W64(marker - back - misses * lost);
    forall marker: nat, misses: nat, period: nat ensures LagsAt(epoch, SpacingOf(c), marker, misses, period) {
      BehindMore(marker, back, misses, lost, period, Spacing(period, c));
    }
  }

  lemma {:induction false} EpochRun(step: Step, stamp: State -> nat, d: nat -> nat, back: nat, epoch: Grid,
                                    states: seq<State>, outcomes: seq<bool>, j: nat, k: nat)
    requires Run(step, states, outcomes) && Advances(step) && Spaced(step, stamp, d) && Epochs(step, stamp, back)
    requires Lags(epoch, d) && StartsFrom(epoch, back) && RegularUntil(states[0], k)
    requires j < k <= |outcomes| && outcomes[j] && forall i :: j < i < k ==> !outcomes[i]
    ensures states[k].epoch == epoch(stamp(states[k - 1]), k - 1 - j)
    decreases k
  {
    if j == k - 1 {
      RunIdx(step, states, outcomes, j);
      assert EpochAt(step, stamp, back, states[j], true);
    } else {
      EpochRun(step, stamp, d, back, epoch, states, outcomes, j, k - 1);
      MissRun(step, stamp, d, back, epoch, states, outcomes, k - 2, k - 2 - j);
    }
  }

  lemma MissRun(step: Step, stamp: State -> nat, d: nat -> nat, back: nat, epoch: Grid, states: seq<State>,
                outcomes: seq<bool>, k: nat, misses: nat)
    requires Run(step, states, outcomes) && Advances(step) && Spaced(step, stamp, d) && Epochs(step, stamp, back)
    requires Lags(epoch, d) && k + 2 <= |outcomes| && RegularUntil(states[0], k + 2) && !outcomes[k + 1]
    requires states[k + 1].epoch == epoch(stamp(states[k]), misses)
    ensures states[k + 2].epoch == epoch(stamp(states[k + 1]), misses + 1)
  {
    RunIdx(step, states, outcomes, k);
    RunIdx(step, states, outcomes, k + 1);
    OneMiss(step, stamp, d, back, epoch, states[k], outcomes[k], misses);
  }

  /** An attempt and then a start error. */
  lemma OneMiss(step: Step, stamp: State -> nat, d: nat -> nat, back: nat, epoch: Grid, s: State, ok: bool, misses: nat)
    requires AdvancesAt(step, s, ok) && SpacedAt(step, stamp, d, s, ok)
    requires EpochAt(step, stamp, back, step(s, ok), false)
    requires Lags(epoch, d) && Ok(s) && Regular(s.idx, |s.frames|)
    requires var r := step(s, ok); Regular(r.idx, |r.frames|) && r.epoch == epoch(stamp(s), misses)
    ensures var r := step(s, ok); step(r, false).epoch == epoch(stamp(r), misses + 1)
  {
    assert LagsAt(epoch, d, stamp(s), misses, step(s, ok).period);
  }

  /**
   Over every run, `k - 1 - j` start errors after a success: the epoch is the marker time planned by the
   last attempt less the time from start to marker, and less the antenna delay rounded down to 512 for
   every one of those errors.
   */
  lemma EpochInRun(c: Setup, states: seq<State>, outcomes: seq<bool>, j: nat, k: nat)
    requires Run(Attempting(c), states, outcomes) && RegularUntil(states[0], k)
    requires j < k <= |outcomes| && outcomes[j] && forall i :: j < i < k ==> !outcomes[i]
    ensures Ok(states[k - 1])
    ensures states[k].epoch
         == W64(Next(states[k - 1], c).stamp - c.toMarker * TWO16 - (k - 1 - j) * Floor512(c.antenna))
  {
    AttemptAdvances(c);
    RunIdx(Attempting(c), states, outcomes, k - 1);
    var back := c.toMarker * TWO16;
    var epoch := EpochFrom(c, back, Next(states[k - 1], c).stamp, k - 1 - j);
    EpochOfRun(c, back, epoch, states, outcomes, j, k);
  }

  lemma EpochOfRun(c: Setup, back: nat, epoch: Grid, states: seq<State>, outcomes: seq<bool>, j: nat, k: nat)
    requires Run(Attempting(c), states, outcomes) && RegularUntil(states[0], k) && back == c.toMarker * TWO16
    requires j < k <= |outcomes| && outcomes[j] && forall i :: j < i < k ==> !outcomes[i]
    requires Lags(epoch, SpacingOf(c)) && StartsFrom(epoch, back) && Ok(states[k - 1])
    ensures states[k].epoch == epoch(Next(states[k - 1], c).stamp, k - 1 - j)
  {
    var (step, stamp) := (Attempting(c), PlannedStamp(c));
    AttemptAdvances(c);
    AttemptsSpaced(c);
    AttemptEpochs(c);
    StampOf(c, states[k - 1]);
    EpochRun(step, stamp, SpacingOf(c), back, epoch, states, outcomes, j, k);
  }

  /** So it is the start of the frame last planned exactly without start errors or with a short antenna delay. */
  lemma EpochIsStartIff(c: Setup, states: seq<State>, outcomes: seq<bool>, j: nat, k: nat)
    requires Run(Attempting(c), states, outcomes) && RegularUntil(states[0], k) && k - j <= TWO16
    requires j < k <= |outcomes| && outcomes[j] && forall i :: j < i < k ==> !outcomes[i]
    ensures Ok(states[k - 1])
    ensures states[k].epoch == W64(Next(states[k - 1], c).stamp - c.toMarker * TWO16)
            <==> k == j + 1 || c.antenna < 512
  {
    EpochInRun(c, states, outcomes, j, k);
    BehindIff(Next(states[k - 1], c).stamp - c.toMarker * TWO16, k - 1 - j, Floor512(c.antenna));
  }

  lemma BehindIff(x: int, misses: nat, lost: nat)
    requires misses < TWO16 && lost < TWO16
    ensures W64(x - misses * lost) == W64(x) <==> misses == 0 || lost == 0
  {
    ProductBelow(misses, lost);
    var less := misses * lost;
    assert (x - less) + less == x;
    AddIff(x - less, less);
  }

  lemma ProductBelow(a: nat, b: nat)
    requires a < TWO16 && b < TWO16
    ensures 0 <= a * b < TWO64 && (a * b == 0 <==> a == 0 || b == 0)
  {
    Product(a, b);
  }

  lemma {:induction false} Product(a: nat, b: nat)
    ensures 0 <= a * b <= a * TWO16 || b > TWO16
    ensures a > 0 ==> a * b >= b
    decreases a
  {
    if a > 0 {
      Product(a - 1, b);
      assert a * b == (a - 1) * b + b;
    }
  }

  /**
   The master announces its period as the interval; that is the real spacing of two attempts only
   for short antenna delays, and after a start error for a period of 24 bits.
   */
  lemma SpacingIsAnnouncedIff(s: State, c: Setup, ok: bool)
    requires Ok(s) && Regular(s.idx, |s.frames|)
    ensures var f := Next(s, c);
            W64(f.stamp + f.interval) == Next(Attempt(s, c, ok), c).stamp
            <==> c.antenna < 512 && (ok || s.period < TWO24)
  {
    var f := Next(s, c);
    AttemptStep(s, c, ok);
    IntervalPeriod(s.period);
    AnnouncedIff(f.stamp, s.period, c, ok);
  }

  lemma AnnouncedIff(x: nat, period: U32, c: Setup, ok: bool)
    ensures W64(x + period % TWO24 * TWO16) == Following(x, c, period, ok)
            <==> c.antenna < 512 && (ok || period < TWO24)
  {
    var (low, later) := (period % TWO24, PeriodAfter(period, ok));
    assert (later - low) * TWO16 == later * TWO16 - low * TWO16;
    AddIff(x + low * TWO16, (later - low) * TWO16 + Floor512(c.antenna));
  }

  lemma AddIff(x: int, d: nat)
    requires d < TWO64
    ensures W64(x) == W64(x + d) <==> d == 0
  {
    var p := Split64(x);
    var q := Split64(x + d);
    if W64(x) == W64(x + d) { assert d == TWO64 * (q - p); }
  }

  /** What the master sends can start a chain of relays. */
  lemma SentCanBeRelayed(s: State, c: Setup)
    requires Ok(s)
    ensures InRange(Next(s, c)) && Next(s, c).rpt == 0 < Next(s, c).rptMax
    ensures Next(s, c).interval == s.period % TWO24 * TWO16
    ensures Next(s, c).interval % TWO32 == 0 <==> s.period % TWO16 == 0
  {
    IntervalPeriod(s.period);
    IntervalOnGrid(s.period % TWO24, s.period);
  }

  lemma IntervalOnGrid(low: nat, period: nat)
    requires low == period % TWO24
    ensures low * TWO16 % TWO32 == 0 <==> period % TWO16 == 0
  {
    assert low % TWO16 == period % TWO16;
    GridPeriod(low, low / TWO16, low % TWO16);
  }

  lemma GridPeriod(period: nat, q: nat, r: nat)
    requires period == TWO16 * q + r && r < TWO16
    ensures period * TWO16 % TWO32 == r * TWO16
  {
    assert period * TWO16 == TWO32 * q + r * TWO16;
  }
}
