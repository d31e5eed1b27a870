/**
 Reception and cascaded relaying of clock calibration packets (`rx_complete_cb` of
 lib/uwb_ccp).  The clock-skew correction is an arbitrary function on 64-bit values; the build
 without the wireless clock synchroniser is the identity.
 */
module CcpRelay {
  import opened Common

  /** The blink frame; `interval` is a 40-bit field, `stamp` a 64-bit one. */
  datatype Blink = Blink(euid: nat, seqno: nat, addr: nat, interval: nat, stamp: nat,
                         rpt: nat, rptMax: nat, toMarker: nat)

  predicate InRange(f: Blink) {
    f.interval < TWO40 && f.stamp < TWO64 && f.rpt < 256 && f.rptMax < 256 && f.toMarker < TWO16
  }

  function W64(x: int): (r: nat)
    ensures r < TWO64
  {
    x % TWO64
  }

  type Skew = nat -> nat

  function NoSkew(): Skew { (x: nat) => x }

  datatype Compensation = NoTof | Tof(ticks: nat)

  // ----- Reception -----

  /** What a receiver holds: the epochs, the period, and the time relaying is counted from. */
  datatype Sync = Sync(epoch: nat, local: nat, period: nat, reception: nat)

  /** The interval of the master that a relayed frame stands for. */
  function MasterInterval(interval: nat): nat { (interval / TWO32 + 1) * TWO32 }

  /** The delay that a relayed frame declares; 0 for a direct one. */
  function RepeatDelay(f: Blink): nat {
    if f.rpt == 0 then 0 else MasterInterval(f.interval) - f.interval
  }

  function Receive(f: Blink, rx: nat, tof: Compensation, skew: Skew): Sync {
    var epoch := W64(f.stamp - f.toMarker * TWO16);
    var adjusted := W64(rx - f.toMarker * TWO16);
    var local := if tof.Tof? then W64(adjusted - skew(tof.ticks) % TWO32) else adjusted;
    var reception := if tof.Tof? then local else rx;
    if f.rpt == 0 then Sync(epoch, local, f.interval / TWO16, reception)
    else
      var back := W64(local - skew(RepeatDelay(f))) % TWO40;
      Sync(W64(epoch - RepeatDelay(f)), back, MasterInterval(f.interval) / TWO16, back)
  }

  // ----- Relaying -----

  datatype Config = Config(addr: nat, holdoff: nat, slot: nat, blink: nat, antenna: nat)

  /** How long after the reception a relay means to send its `rpt`-th repetition. */
  function Hold(c: Config, rpt: nat): nat {
    rpt * (c.holdoff * TWO16) + (c.slot % 4) * (c.blink * TWO16)
  }

  /** The delayed start, on the 512-tick grid of the 40-bit counter, and the time of the marker. */
  function StartAt(c: Config, reception: nat, rpt: nat): nat {
    var t := W64(reception + Hold(c, rpt)) % TWO40;
    t - t % 512
  }

  function MarkerAt(c: Config, reception: nat, rpt: nat): nat { StartAt(c, reception, rpt) + c.antenna }

  /** The frame repeated with a declared delay. */
  function Forward(f: Blink, addr: nat, delay: nat): Blink {
    f.(addr := addr, rpt := f.rpt + 1, stamp := W64(f.stamp + delay), interval := (f.interval - delay) % TWO40)
  }

  function HopDelay(f: Blink, reception: nat, c: Config, skew: Skew): nat {
    skew(W64(MarkerAt(c, reception, f.rpt + 1) - reception)) % TWO64
  }

  function Relay(f: Blink, reception: nat, c: Config, skew: Skew): Blink {
    Forward(f, c.addr, HopDelay(f, reception, c, skew))
  }

  // ----- The receiver as an object -----

  const VALID_THRESHOLD := 2

  datatype Role = Slave | RelayNode
  datatype Received = Received(blink: Blink, reception: nat)

  /** Validity and its counter after a frame: a new master, or time running backwards, starts over. */
  function Validity(euid: nat, epoch: nat, valid: bool, count: nat, f: Blink): (bool, nat) {
    if f.stamp < epoch || f.euid != euid then (false, 0)
    else
      var n := if count < VALID_THRESHOLD - 1 then count + 1 else count;
      (valid || n == VALID_THRESHOLD - 1, n)
  }

  /** What a receiver remembers of its master: identifier, epoch, and whether the master is believed. */
  datatype Link = Link(euid: nat, epoch: nat, valid: bool, count: nat)

  const NO_LINK := Link(0, 0, false, 0)

  /** The epoch that a frame gives. */
  function EpochOf(f: Blink): nat { W64(W64(f.stamp - f.toMarker * TWO16) - RepeatDelay(f)) }

  function After(l: Link, f: Blink): Link {
    var (valid, count) := Validity(l.euid, l.epoch, l.valid, l.count, f);
    Link(f.euid, EpochOf(f), valid, count)
  }

  lemma EpochReceived(f: Blink, rx: nat, tof: Compensation, skew: Skew)
    requires f.stamp < TWO64
    ensures Receive(f, rx, tof, skew).epoch == EpochOf(f)
  {
    if f.rpt == 0 {
      var e := W64(f.stamp - f.toMarker * TWO16);
      Is64(e - 0, 0, e);
    }
  }

  /** What a receiver that has heard `f` in state `l` repeats. */
  function Repeated(role: Role, l: Link, f: Blink, reception: nat, c: Config, skew: Skew): Option<Blink> {
    if role.RelayNode? && After(l, f).valid && f.rpt < f.rptMax then Some(Relay(f, reception, c, skew)) else None
  }

  class Node {
    const role: Role
    const config: Config
    const frames: array<Received>
    var idx: nat
    var seqno: nat
    var euid: nat
    var valid: bool
    var count: nat
    var epoch: nat
    var local: nat
    var period: nat

    ghost predicate Ok()
      reads this
    {
      frames.Length > 1 && idx < TWO16
    }

    ghost function Linked(): Link
      reads this
    {
      Link(euid, epoch, valid, count)
    }

    constructor (role: Role, config: Config, nframes: nat, blank: Received)
      requires nframes > 1
      ensures Ok() && Linked() == NO_LINK && fresh(frames) && this.role == role && this.config == config
    {
      this.role, this.config := role, config;
      frames := new Received[nframes](_ => blank);
      idx, seqno, euid, valid, count, epoch, local, period := 0, 0, 0, false, 0, 0, 0, 0;
    }

    method UpdateValidity(f: Blink)
      modifies this`euid, this`valid, this`count
      ensures (valid, count) == Validity(old(euid), epoch, old(valid), old(count), f) && euid == f.euid
    {
      if f.stamp < epoch || f.euid != euid {
        euid, valid, count := f.euid, false, 0;
      } else {
        if count < VALID_THRESHOLD - 1 { count := count + 1; }
        valid := valid || count == VALID_THRESHOLD - 1;
      }
    }

    /** Sets the epochs and the period, step by step. */
    method Synchronise(f: Blink, rx: nat, tof: Compensation, skew: Skew) returns (reception: nat)
      modifies this`epoch, this`local, this`period
      ensures Receive(f, rx, tof, skew) == Sync(epoch, local, period, reception)
    {
      epoch, local, reception := f.stamp, rx, rx;
      period := f.interval / TWO16;
      epoch := W64(epoch - f.toMarker * TWO16);
      local := W64(local - f.toMarker * TWO16);
      if tof.Tof? {
        local := W64(local - skew(tof.ticks) % TWO32);
        reception := local;
      }
      if f.rpt != 0 {
        var masterInterval := MasterInterval(f.interval);
        period := masterInterval / TWO16;
        var delay := masterInterval - f.interval;
        epoch := W64(epoch - delay);
        local := W64(local - skew(delay)) % TWO40;
        reception := local;
      }
    }

    /** The cascaded frame. */
    method Cascade(f: Blink, reception: nat, skew: Skew) returns (g: Blink)
      ensures g == Relay(f, reception, config, skew)
    {
      var rpt := f.rpt + 1;
      var hold := rpt * (config.holdoff * TWO16);
      var shift := (config.slot % 4) * (config.blink * TWO16);
      var at := W64(reception + hold);
      at := W64(at + shift);
      Wrap64(reception + hold, shift);
      at := at % TWO40;
      at := at - at % 512 + config.antenna;
      var delay := skew(W64(at - reception)) % TWO64;
      g := f.(addr := config.addr, rpt := rpt, stamp := W64(f.stamp + delay), interval := (f.interval - delay) % TWO40);
    }

    /** `rx_complete_cb` for a CCP frame that was being waited for; `good` is false after a receiver error. */
    method RxComplete(f: Blink, rx: nat, tof: Compensation, skew: Skew, good: bool) returns (sent: Option<Blink>)
      requires Ok() && InRange(f)
      modifies this, frames
      ensures Ok()
      ensures !good ==> sent == None && idx == old(idx) && Linked() == old(Linked())
      ensures !good ==> local == old(local) && period == old(period) && seqno == old(seqno)
      ensures !good ==> frames[(old(idx) + 1) % frames.Length] == old(frames[(idx + 1) % frames.Length]).(blink := f)
      ensures good ==>
                && Linked() == After(old(Linked()), f) && seqno == f.seqno && idx == (old(idx) + 1) % TWO16
                && Receive(f, rx, tof, skew).(reception := 0) == Sync(epoch, local, period, 0)
                && sent == Repeated(role, old(Linked()), f, Receive(f, rx, tof, skew).reception, config, skew)
      ensures good ==> frames[(old(idx) + 1) % frames.Length] == Received(f, Receive(f, rx, tof, skew).reception)
      ensures forall k :: 0 <= k < frames.Length && k != (old(idx) + 1) % frames.Length ==> frames[k] == old(frames[k])
    {
      sent := None;
      var cell := (idx + 1) % frames.Length;
      frames[cell] := frames[cell].(blink := f);
      if !good { return; }
      EpochReceived(f, rx, tof, skew);
      idx := (idx + 1) % TWO16;
      seqno := f.seqno;
      UpdateValidity(f);
      var reception := Synchronise(f, rx, tof, skew);
      frames[cell] := frames[cell].(reception := reception);
      if role.RelayNode? && valid && f.rpt < f.rptMax {
        var g := Cascade(f, reception, skew);
        sent := Some(g);
      }
    }
  }

  // ----- Modular arithmetic -----

  /** A value is its remainder once a quotient is known. */
  lemma Is64(x: int, q: int, r: int)
    requires x == TWO64 * q + r && 0 <= r < TWO64
    ensures W64(x) == r
  {}

  lemma Is40(x: int, q: int, r: int)
    requires x == TWO40 * q + r && 0 <= r < TWO40
    ensures x % TWO40 == r
  {}

  lemma Turns40(x: int, k: int)
    ensures (x + TWO40 * k) % TWO40 == x % TWO40
  {
    Is40(x + TWO40 * k, x / TWO40 + k, x % TWO40);
  }

  lemma Turns64(x: int, k: int)
    ensures W64(x + TWO64 * k) == W64(x)
  {
    Is64(x + TWO64 * k, x / TWO64 + k, W64(x));
  }

  /** The quotient of a 64-bit wrap. */
  lemma Split64(x: int) returns (q: int)
    ensures x == TWO64 * q + W64(x)
  {
    q := x / TWO64;
  }

  lemma Split40(x: int) returns (q: int)
    ensures x == TWO40 * q + x % TWO40
  {
    q := x / TWO40;
  }

  lemma Wrap64(a: int, b: int)
    ensures W64(W64(a) + b) == W64(a + b)
  {
    var q := Split64(a);
    Turns64(W64(a) + b, q);
  }

  lemma Wrap40(a: int, b: int)
    ensures (a % TWO40 + b) % TWO40 == (a + b) % TWO40
  {
    var q := Split40(a);
    Turns40(a % TWO40 + b, q);
  }

  /** The low 40 bits of a 64-bit value. */
  lemma Low40(x: int)
    ensures W64(x) % TWO40 == x % TWO40
  {
    var q := Split64(x);
    Turns40(W64(x), 0x100_0000 * q);
  }

  lemma SubtractLow40(a: int, b: int, d: int)
    requires a % TWO40 == b % TWO40
    ensures (a - d) % TWO40 == (b - d) % TWO40
  {
    Wrap40(a, -d);
    Wrap40(b, -d);
  }

  // ----- Chains of relays -----

  datatype Hop = Hop(addr: nat, delay: nat)

  /** `g` is what `f` becomes after being relayed by these hops; each relay checks the repeat count. */
  ghost predicate Path(f: Blink, hops: seq<Hop>, g: Blink)
    decreases |hops|
  {
    if hops == [] then f == g
    else f.rpt < f.rptMax && Path(Forward(f, hops[0].addr, hops[0].delay), hops[1..], g)
  }

  ghost function Total(hops: seq<Hop>): nat {
    if hops == [] then 0 else hops[0].delay + Total(hops[1..])
  }

  /** Whatever the skews: stamp and interval move in opposite directions by the same total. */
  lemma {:induction false} PathConserves(f: Blink, hops: seq<Hop>, g: Blink)
    requires InRange(f) && f.rpt <= f.rptMax && Path(f, hops, g)
    ensures InRange(g) && g.rpt == f.rpt + |hops| <= g.rptMax == f.rptMax
    ensures g.euid == f.euid && g.seqno == f.seqno && g.toMarker == f.toMarker
    ensures g.stamp == W64(f.stamp + Total(hops)) && g.interval == (f.interval - Total(hops)) % TWO40
    ensures (g.stamp + g.interval) % TWO40 == (f.stamp + f.interval) % TWO40
    ensures Total(hops) <= f.interval && f.stamp + Total(hops) < TWO64 ==> g.stamp + g.interval == f.stamp + f.interval
    decreases |hops|
  {
    if hops == [] {
    } else {
      var d := hops[0].delay;
      var f1 := Forward(f, hops[0].addr, d);
      PathConserves(f1, hops[1..], g);
      AddTwice(f.stamp, f.interval, d, Total(hops[1..]));
    }
    SumKept(f.stamp, f.interval, Total(hops));
  }

  lemma AddTwice(stamp: nat, interval: nat, a: nat, b: nat)
    ensures W64(W64(stamp + a) + b) == W64(stamp + (a + b))
    ensures ((interval - a) % TWO40 - b) % TWO40 == (interval - (a + b)) % TWO40
  {
    Wrap64(stamp + a, b);
    Wrap40(interval - a, 0 - b);
  }

  lemma SumKept(stamp: nat, interval: nat, d: nat)
    requires interval < TWO40 && stamp < TWO64
    ensures (W64(stamp + d) + (interval - d) % TWO40) % TWO40 == (stamp + interval) % TWO40
    ensures d <= interval && stamp + d < TWO64 ==> W64(stamp + d) + (interval - d) % TWO40 == stamp + interval
  {
    var p := Split64(stamp + d);
    var q := Split40(interval - d);
    Turns40(stamp + interval, -0x100_0000 * p - q);
    if d <= interval && stamp + d < TWO64 {
      Is64(stamp + d, 0, stamp + d);
      Is40(interval - d, 0, interval - d);
    }
  }

  // ----- When a master is believed -----

  /** The link after some good frames. */
  function LinkedBy(fs: seq<Blink>): Link {
    if fs == [] then NO_LINK else After(LinkedBy(fs[..|fs| - 1]), fs[|fs| - 1])
  }

  /** The frame is from the master of the one before, and not stamped before its epoch. */
  predicate Succeeds(fs: seq<Blink>, k: nat)
    requires k < |fs|
  {
    if k == 0 then fs[0].euid == 0 else fs[k].euid == fs[k - 1].euid && fs[k].stamp >= EpochOf(fs[k - 1])
  }

  /** How many frames at the end succeed the ones before them. */
  function Streak(fs: seq<Blink>): nat {
    if fs == [] || !Succeeds(fs, |fs| - 1) then 0 else Streak(fs[..|fs| - 1]) + 1
  }

  lemma {:induction false} LinkIs(fs: seq<Blink>)
    ensures
      var l := LinkedBy(fs);
      && (fs == [] || (l.euid == fs[|fs| - 1].euid && l.epoch == EpochOf(fs[|fs| - 1])))
      && l.count == (if Streak(fs) < VALID_THRESHOLD - 1 then Streak(fs) else VALID_THRESHOLD - 1)
      && (l.valid <==> Streak(fs) >= VALID_THRESHOLD - 1)
    decreases |fs|
  {
    if fs == [] {
    } else {
      LinkIs(fs[..|fs| - 1]);
    }
  }

  /** After any frames: a master is believed if and only if the last frame succeeds the one before it. */
  lemma BelievedIff(fs: seq<Blink>)
    ensures LinkedBy(fs).valid <==> fs != [] && Succeeds(fs, |fs| - 1)
  {
    LinkIs(fs);
  }

  /** The frames of one master, each stamped no earlier than the epoch of the one before. */
  predicate InOrder(fs: seq<Blink>) { forall k :: 1 <= k < |fs| ==> Succeeds(fs, k) }

  /**
   Hearing one master, a fresh node believes it from the second frame on: exactly from then on, but
   for a master whose identifier is 0, which it believes at once.
   */
  lemma OneMasterBelieved(fs: seq<Blink>, n: nat)
    requires InOrder(fs) && n <= |fs|
    ensures LinkedBy(fs[..n]).valid <==> n >= VALID_THRESHOLD || (n >= 1 && fs[0].euid == 0)
  {
    BelievedIff(fs[..n]);
    if n >= 2 {
      assert Succeeds(fs, n - 1);
      assert fs[..n][n - 1] == fs[n - 1] && fs[..n][n - 2] == fs[n - 2];
    }
  }

  /** Another master, or a stamp from before the epoch, and the next frame has to be waited for again. */
  lemma StartsOver(fs: seq<Blink>, f: Blink)
    requires fs != [] && (f.euid != fs[|fs| - 1].euid || f.stamp < EpochOf(fs[|fs| - 1]))
    ensures !LinkedBy(fs + [f]).valid
  {
    var gs := fs + [f];
    BelievedIff(gs);
    assert gs[|gs| - 2] == fs[|fs| - 1];
  }

  /** Stamps that do not decrease are in order unless an epoch lies before the start of the count. */
  lemma RisingStampsInOrder(fs: seq<Blink>)
    requires forall k :: 0 <= k < |fs| ==> fs[k].stamp < TWO64 && fs[k].euid == fs[0].euid
    requires forall k :: 1 <= k < |fs| ==> fs[k - 1].stamp <= fs[k].stamp
    requires forall k :: 0 <= k < |fs| ==> fs[k].toMarker * TWO16 + RepeatDelay(fs[k]) <= fs[k].stamp
    ensures InOrder(fs)
  {
    forall k | 1 <= k < |fs| ensures Succeeds(fs, k) {
      var f := fs[k - 1];
      Is64(f.stamp - f.toMarker * TWO16, 0, f.stamp - f.toMarker * TWO16);
      Is64(f.stamp - f.toMarker * TWO16 - RepeatDelay(f), 0, f.stamp - f.toMarker * TWO16 - RepeatDelay(f));
      assert EpochOf(f) <= f.stamp;
    }
  }

  /**
   A relay repeats exactly the frames that succeed the one before them and have repetitions left; in
   a row of frames of one master that is every one from the second on.  A slave repeats none.
   */
  lemma RepeatsIff(role: Role, fs: seq<Blink>, f: Blink, reception: nat, c: Config, skew: Skew)
    ensures Repeated(role, LinkedBy(fs), f, reception, c, skew)
         == if role.RelayNode? && Succeeds(fs + [f], |fs|) && f.rpt < f.rptMax then Some(Relay(f, reception, c, skew))
            else None
  {
    var gs := fs + [f];
    assert gs[..|gs| - 1] == fs;
    assert LinkedBy(gs) == After(LinkedBy(fs), f);
    BelievedIff(gs);
  }

  // ----- Relays that hear the same frame -----

  /**
   A relay keeps what tells whose frame it is and how far it may go, puts in its own address, and
   counts its delay from the marker if it heard the master itself without flight-time compensation.
   */
  lemma RelayKeeps(f: Blink, rx: nat, tof: Compensation, c: Config, skew: Skew)
    ensures
      var g := Relay(f, Receive(f, rx, tof, skew).reception, c, skew);
      && g.euid == f.euid && g.seqno == f.seqno && g.rptMax == f.rptMax && g.toMarker == f.toMarker
      && g.addr == c.addr && g.rpt == f.rpt + 1
    ensures
      var here := Receive(f, rx, tof, skew);
      here.reception == if f.rpt == 0 && tof.NoTof? then rx else here.local
  {}

  /** Relays in different quarters of the slots start at least a frame apart, but for the 512-tick grid. */
  lemma RelaysStartApart(c: Config, c': Config, reception: nat, rpt: nat)
    requires c.holdoff == c'.holdoff && c.blink == c'.blink && c.slot % 4 < c'.slot % 4
    requires reception + Hold(c', rpt) < TWO40
    ensures StartAt(c, reception, rpt) + c.blink * TWO16 < StartAt(c', reception, rpt) + 512
    ensures StartAt(c, reception, rpt) <= reception + Hold(c, rpt) < StartAt(c, reception, rpt) + 512
  {
    var b := c.blink * TWO16;
    SlotsApart(c.slot % 4, c'.slot % 4, b);
    NoWrap(reception + Hold(c, rpt));
    NoWrap(reception + Hold(c', rpt));
  }

  lemma SlotsApart(a: nat, b: nat, len: nat)
    requires a < b
    ensures a * len + len <= b * len
  {
    AtLeastOnce(b - a, len);
    assert b * len == a * len + (b - a) * len;
  }

  lemma AtLeastOnce(k: nat, len: nat)
    requires k > 0
    ensures k * len >= len
  {}

  lemma NoWrap(t: nat)
    requires t < TWO40
    ensures W64(t) % TWO40 == t
  {
    Is64(t, 0, t);
    Is40(t, 0, t);
  }

  /** Every further repetition is held back by one more hold-off. */
  lemma HoldGrows(c: Config, rpt: nat)
    ensures Hold(c, rpt + 1) == Hold(c, rpt) + c.holdoff * TWO16
  {}

  // ----- What receivers recover -----

  /** The delay read off the interval is the real one exactly on the grid and within one grid step. */
  lemma DelayReadIff(interval: nat, d: nat)
    requires 0 < interval < TWO40 && d < TWO64
    ensures
      var i := (interval - d) % TWO40;
      d == MasterInterval(i) - i <==> interval % TWO32 == 0 && 0 < d <= TWO32
    ensures interval % TWO32 == 0 && 0 < d <= TWO32 ==> MasterInterval((interval - d) % TWO40) == interval
  {
    var i := (interval - d) % TWO40;
    if 0 < d <= TWO32 && d <= interval {
      Is40(interval - d, 0, interval - d);
    } else if 0 < d <= TWO32 {
      Is40(interval - d, -1, interval - d + TWO40);
    }
  }

  /** The epoch computed from a frame delayed by `d` in all. */
  lemma RecoverNumbers(interval: nat, stamp: nat, d: nat)
    requires 0 < interval < TWO40 && stamp < TWO64 && d < TWO64
    ensures
      var i := (interval - d) % TWO40;
      W64(W64(stamp + d) - (MasterInterval(i) - i)) == stamp <==> interval % TWO32 == 0 && 0 < d <= TWO32
    ensures interval % TWO32 == 0 && 0 < d <= TWO32 ==> MasterInterval((interval - d) % TWO40) == interval
  {
    var i := (interval - d) % TWO40;
    var back := MasterInterval(i) - i;
    assert 0 < back <= TWO32;
    DelayReadIff(interval, d);
    ThereAndBack(stamp, d, back);
  }

  lemma ThereAndBack(stamp: nat, d: nat, back: nat)
    requires stamp < TWO64 && d < TWO64 && back < TWO64
    ensures W64(W64(stamp + d) - back) == stamp <==> d == back
  {
    Wrap64(stamp + d, 0 - back);
    SameEpochIff(d, back, 0);
    var q := Split64(stamp + d - back);
    if d == back { Is64(stamp + d - back, 0, stamp); }
    if W64(stamp + d - back) == stamp { assert d - back == TWO64 * q; }
  }

  lemma ShiftedEpoch(stamp: nat, back: nat, delay: nat)
    ensures W64(W64(stamp - back) - delay) == W64(W64(stamp - delay) - back)
  {
    Wrap64(stamp - back, 0 - delay);
    Wrap64(stamp - delay, 0 - back);
  }

  lemma SameEpochIff(a: nat, b: nat, back: nat)
    requires a < TWO64 && b < TWO64
    ensures W64(a - back) == W64(b - back) <==> a == b
  {
    var p := Split64(a - back);
    var q := Split64(b - back);
    if W64(a - back) == W64(b - back) { assert a - b == TWO64 * (p - q); }
  }

  /**
   After any chain of relays, with any skews, a receiver recovers the epoch that a direct
   receiver of the master would hold if and only if the master's interval is a multiple of
   2^32 ticks and the declared delays add up to at most 2^32 but not to nothing; the period
   is then recovered too.
   */
  lemma RecoversIff(f: Blink, hops: seq<Hop>, g: Blink, rx: nat, rx': nat, tof: Compensation, tof': Compensation,
                    skew: Skew, skew': Skew)
    requires InRange(f) && f.rpt == 0 && f.interval > 0 && hops != [] && Path(f, hops, g)
    ensures
      var direct := Receive(f, rx, tof, skew);
      var relayed := Receive(g, rx', tof', skew');
      && (relayed.epoch == direct.epoch <==> f.interval % TWO32 == 0 && 0 < W64(Total(hops)) <= TWO32)
      && (relayed.epoch == direct.epoch ==> relayed.period == direct.period)
  {
    PathConserves(f, hops, g);
    AddModulo(f.stamp, f.interval, Total(hops));
    EpochRecoveredIff(f, g, W64(Total(hops)), f.toMarker * TWO16);
  }

  /** The epochs of two frames `d` apart, `marker` after their epochs. */
  lemma EpochRecoveredIff(f: Blink, g: Blink, d: nat, marker: nat)
    requires InRange(f) && f.interval > 0 && d < TWO64 && g.rpt != 0
    requires g.stamp == W64(f.stamp + d) && g.interval == (f.interval - d) % TWO40
    ensures W64(W64(g.stamp - marker) - RepeatDelay(g)) == W64(f.stamp - marker)
            <==> f.interval % TWO32 == 0 && 0 < d <= TWO32
    ensures f.interval % TWO32 == 0 && 0 < d <= TWO32 ==> MasterInterval(g.interval) == f.interval
  {
    RecoverNumbers(f.interval, f.stamp, d);
    ShiftedEpoch(g.stamp, marker, RepeatDelay(g));
    SameEpochIff(W64(g.stamp - RepeatDelay(g)), f.stamp, marker);
  }

  lemma AddModulo(stamp: nat, interval: nat, d: nat)
    ensures W64(stamp + d) == W64(stamp + W64(d)) && (interval - d) % TWO40 == (interval - W64(d)) % TWO40
  {
    Wrap64(d, stamp);
    var q := Split64(d);
    Turns40(interval - W64(d), -0x100_0000 * q);
  }

  /** Inside a chain that can be recovered, the declared delay is the sum of the hops. */
  lemma DeclaredDelay(f: Blink, hops: seq<Hop>, g: Blink)
    requires InRange(f) && f.rpt == 0 && f.interval > 0 && f.interval % TWO32 == 0 && Path(f, hops, g)
    requires 0 < Total(hops) <= TWO32
    ensures RepeatDelay(g) == Total(hops)
  {
    PathConserves(f, hops, g);
    RecoverNumbers(f.interval, f.stamp, Total(hops));
  }

  // ----- One relay without skew: the 40-bit counter -----

  /** The declared delay, when the counter does not pass 2^40 between reception and start, and when it does. */
  lemma DelayAcrossWrap(f: Blink, x: nat, c: Config)
    requires x < TWO40 && Hold(c, f.rpt + 1) < TWO40
    ensures
      var h := Hold(c, f.rpt + 1);
      HopDelay(f, x, c, NoSkew()) == W64(h - (x + h) % 512 + c.antenna - if x + h < TWO40 then 0 else TWO40)
  {
    StartNumbers(x, Hold(c, f.rpt + 1));
    HopDelayNoSkew(f, x, c);
  }

  lemma HopDelayNoSkew(f: Blink, x: nat, c: Config)
    ensures HopDelay(f, x, c, NoSkew()) == W64(MarkerAt(c, x, f.rpt + 1) - x)
  {}

  lemma StartNumbers(x: nat, h: nat)
    requires x < TWO40 && h < TWO40
    ensures var t := W64(x + h) % TWO40;
            t - t % 512 == x + h - (x + h) % 512 - if x + h < TWO40 then 0 else TWO40
  {
    Is64(x + h, 0, x + h);
    if x + h < TWO40 {
      Is40(x + h, 0, x + h);
    } else {
      Is40(x + h, 1, x + h - TWO40);
      assert (x + h - TWO40) % 512 == (x + h) % 512;
    }
  }

  /**
   One relay of a master on the 2^32 grid, with a hold of at least one grid step: receivers
   recover the master's epoch if and only if the relay's 40-bit counter does not wrap between
   reception and start.  The stamp is 64 bits wide, so a wrap is declared as minus 2^40 ticks.
   */
  lemma OneRelayRecoversIff(f: Blink, x: nat, c: Config, rx: nat)
    requires InRange(f) && f.rpt == 0 && f.rpt < f.rptMax && f.interval > 0 && f.interval % TWO32 == 0 && x < TWO40
    requires 512 <= Hold(c, 1) && Hold(c, 1) + c.antenna <= TWO32
    ensures
      Receive(Relay(f, x, c, NoSkew()), rx, NoTof, NoSkew()).epoch == Receive(f, x, NoTof, NoSkew()).epoch
      <==> x + Hold(c, 1) < TWO40
  {
    var d := HopDelay(f, x, c, NoSkew());
    var hops := [Hop(c.addr, d)];
    var g := Relay(f, x, c, NoSkew());
    assert hops[1..] == [];
    assert Path(g, hops[1..], g);
    assert Total(hops[1..]) == 0 && Total(hops) == d;
    RecoversIff(f, hops, g, x, rx, NoTof, NoTof, NoSkew(), NoSkew());
    DelayAcrossWrap(f, x, c);
    DelayInWindowIff(x, Hold(c, 1), c.antenna, d);
  }

  lemma DelayInWindowIff(x: nat, h: nat, antenna: nat, d: nat)
    requires x < TWO40 && 512 <= h && h + antenna <= TWO32
    requires d == W64(h - (x + h) % 512 + antenna - if x + h < TWO40 then 0 else TWO40)
    ensures 0 < W64(d) <= TWO32 <==> x + h < TWO40
  {
    if x + h < TWO40 {
      assert d == h - (x + h) % 512 + antenna;
    } else {
      assert d == h - (x + h) % 512 + antenna - TWO40 + TWO64;
    }
  }

  // ----- The local epoch along a chain -----

  /** Where a receiver on the same clock puts the epoch of a frame sent at `y`. */
  function LocalOf(g: Blink, y: nat): nat { Receive(g, y, NoTof, NoSkew()).local }

  lemma LocalOfRelayed(g: Blink, y: nat)
    requires g.rpt != 0
    ensures LocalOf(g, y) == W64(W64(y - g.toMarker * TWO16) - RepeatDelay(g)) % TWO40
  {}

  /** The marker of a relayed frame on that clock. */
  function SentAt(g: Blink, reception: nat, c: Config): nat { MarkerAt(c, reception, g.rpt + 1) % TWO40 }

  lemma DelayOnClock(g: Blink, reception: nat, c: Config)
    ensures (SentAt(g, reception, c) - HopDelay(g, reception, c, NoSkew())) % TWO40 == reception % TWO40
  {
    HopDelayNoSkew(g, reception, c);
    ClockNumbers(MarkerAt(c, reception, g.rpt + 1), reception);
  }

  lemma ClockNumbers(marker: nat, reception: nat)
    ensures (marker % TWO40 - W64(marker - reception)) % TWO40 == reception % TWO40
  {
    Wrap40(marker, 0 - W64(marker - reception));
    var q := Split64(marker - reception);
    Turns40(reception, 0x100_0000 * q);
  }

  /** After the first relay the local epoch is the one of a direct receiver. */
  lemma FirstRelayLocal(f: Blink, x: nat, c: Config)
    requires InRange(f) && f.rpt == 0 && f.rpt < f.rptMax && f.interval > 0 && f.interval % TWO32 == 0 && x < TWO40
    requires 0 < HopDelay(f, x, c, NoSkew()) <= TWO32
    ensures LocalOf(Relay(f, x, c, NoSkew()), SentAt(f, x, c)) == LocalOf(f, x) % TWO40
  {
    var d := HopDelay(f, x, c, NoSkew());
    OneHop(f, Hop(c.addr, d), Relay(f, x, c, NoSkew()));
    DelayOnClock(f, x, c);
    LocalNumbers(SentAt(f, x, c), d, f.toMarker * TWO16, x);
  }

  /**
   With flight-time compensation a receiver puts the epoch where the sender's clock had it, but a
   relay then counts its delay from the epoch instead of the marker: behind it the local epoch is
   one preamble early.
   */
  lemma CompensatedRelayLocal(f: Blink, marker: nat, t: nat, t': nat, c: Config, x: nat)
    requires InRange(f) && f.rpt == 0 && f.rpt < f.rptMax && f.interval > 0 && f.interval % TWO32 == 0
    requires marker < TWO40 && marker == x + f.toMarker * TWO16 && t < TWO32 && t' < TWO32
    requires 0 < HopDelay(f, x, c, NoSkew()) <= TWO32
    ensures var here := Receive(f, marker + t, Tof(t), NoSkew()); here.local == here.reception == x
    ensures Receive(Relay(f, x, c, NoSkew()), SentAt(f, x, c) + t', Tof(t'), NoSkew()).local
         == (x - f.toMarker * TWO16) % TWO40
  {
    CompensatedHere(f, marker, t);
    CompensatedNext(f, x, t', c, HopDelay(f, x, c, NoSkew()));
  }

  lemma CompensatedHere(f: Blink, marker: nat, t: nat)
    requires InRange(f) && f.rpt == 0 && f.toMarker * TWO16 <= marker < TWO40 && t < TWO32
    ensures var here := Receive(f, marker + t, Tof(t), NoSkew());
            here.local == here.reception == marker - f.toMarker * TWO16
  {
    var back := f.toMarker * TWO16;
    FlightCancels(marker, t, back);
    Is64(marker - back, 0, marker - back);
  }

  lemma CompensatedNext(f: Blink, x: nat, t: nat, c: Config, d: nat)
    requires InRange(f) && f.rpt == 0 && f.rpt < f.rptMax && f.interval > 0 && f.interval % TWO32 == 0
    requires x < TWO40 && t < TWO32 && d == HopDelay(f, x, c, NoSkew()) && 0 < d <= TWO32
    ensures Receive(Forward(f, c.addr, d), SentAt(f, x, c) + t, Tof(t), NoSkew()).local
         == (x - f.toMarker * TWO16) % TWO40
  {
    var g := Forward(f, c.addr, d);
    OneHop(f, Hop(c.addr, d), g);
    DelayOnClock(f, x, c);
    LocalBehind(g, SentAt(f, x, c), t, d, x);
  }

  lemma OneHop(f: Blink, hop: Hop, g: Blink)
    requires InRange(f) && f.rpt == 0 && f.rpt < f.rptMax && f.interval > 0 && f.interval % TWO32 == 0
    requires g == Forward(f, hop.addr, hop.delay) && 0 < hop.delay <= TWO32
    ensures RepeatDelay(g) == hop.delay
  {
    var hops := [hop];
    assert hops[1..] == [] && Path(g, hops[1..], g) && Total(hops[1..]) == 0 && Total(hops) == hop.delay;
    DeclaredDelay(f, hops, g);
  }

  lemma LocalBehind(g: Blink, y: nat, t: nat, d: nat, x: nat)
    requires g.rpt != 0 && RepeatDelay(g) == d && t < TWO32 && (y - d) % TWO40 == x % TWO40
    ensures Receive(g, y + t, Tof(t), NoSkew()).local == (x - g.toMarker * TWO16) % TWO40
  {
    var back := g.toMarker * TWO16;
    FlightCancels(y, t, back);
    LocalNumbers(y, d, back, x);
  }

  lemma FlightCancels(y: nat, t: nat, back: nat)
    requires t < TWO32
    ensures W64(W64(y + t - back) - t % TWO32) == W64(y - back)
  {
    Wrap64(y + t - back, 0 - t);
  }

  lemma LocalNumbers(y: nat, d: nat, back: nat, x: nat)
    requires (y - d) % TWO40 == x % TWO40
    ensures W64(W64(y - back) - d) % TWO40 == W64(x - back) % TWO40 == (x - back) % TWO40
  {
    Low40(W64(y - back) - d);
    Low40(y - back);
    SubtractLow40(W64(y - back), y - back, d);
    SubtractLow40(y - d, x, back);
    Low40(x - back);
  }

  lemma {:induction false} PathExtends(f: Blink, hops: seq<Hop>, g: Blink, last: Hop)
    requires Path(f, hops, g) && g.rpt < g.rptMax
    ensures Path(f, hops + [last], Forward(g, last.addr, last.delay))
    ensures Total(hops + [last]) == Total(hops) + last.delay
    decreases |hops|
  {
    var all := hops + [last];
    if hops == [] {
      assert all[1..] == [] && all[0] == last;
      assert Total(all[1..]) == 0;
    } else {
      assert all[1..] == hops[1..] + [last] && all[0] == hops[0];
      PathExtends(Forward(f, hops[0].addr, hops[0].delay), hops[1..], g, last);
    }
  }

  /**
   Every further relay counts its delay from the epoch it has already corrected, yet adds it to
   a stamp that includes the earlier delays: the local epoch moves back by all of them, and by
   the preamble time once more.  So local epochs agree along the first hop only.
   */
  lemma LaterRelayLocal(f: Blink, hops: seq<Hop>, g: Blink, y: nat, c: Config)
    requires InRange(f) && f.rpt == 0 && f.interval > 0 && f.interval % TWO32 == 0
    requires hops != [] && Path(f, hops, g) && g.rpt < g.rptMax && 0 < Total(hops)
    requires Total(hops) + HopDelay(g, LocalOf(g, y), c, NoSkew()) <= TWO32
    ensures
      var local := LocalOf(g, y);
      var next := LocalOf(Relay(g, local, c, NoSkew()), SentAt(g, local, c));
      && next == (local - f.toMarker * TWO16 - Total(hops)) % TWO40
      && next != local
  {
    PathConserves(f, hops, g);
    var local := LocalOf(g, y);
    LocalOfRelayed(g, y);
    NextLocal(f, hops, g, local, c, HopDelay(g, local, c, NoSkew()), Total(hops));
  }

  /** One more relay declares its own delay on top of the others. */
  lemma DelayOfNext(f: Blink, hops: seq<Hop>, g: Blink, last: Hop)
    requires InRange(f) && f.rpt == 0 && f.interval > 0 && f.interval % TWO32 == 0
    requires hops != [] && Path(f, hops, g) && g.rpt < g.rptMax
    requires 0 < Total(hops) && Total(hops) + last.delay <= TWO32
    ensures var g2 := Forward(g, last.addr, last.delay);
            g2.rpt != 0 && g2.toMarker == f.toMarker && RepeatDelay(g2) == Total(hops) + last.delay
  {
    var g2 := Forward(g, last.addr, last.delay);
    PathExtends(f, hops, g, last);
    PathConserves(f, hops + [last], g2);
    DeclaredDelay(f, hops + [last], g2);
  }

  /** The same for a relay that counts from any time `x`. */
  lemma NextLocal(f: Blink, hops: seq<Hop>, g: Blink, x: nat, c: Config, d: nat, t: nat)
    requires InRange(f) && f.rpt == 0 && f.interval > 0 && f.interval % TWO32 == 0 && x < TWO40
    requires hops != [] && Path(f, hops, g) && g.rpt < g.rptMax && t == Total(hops)
    requires d == HopDelay(g, x, c, NoSkew()) && 0 < t && t + d <= TWO32
    ensures
      var next := LocalOf(Forward(g, c.addr, d), SentAt(g, x, c));
      next == (x - f.toMarker * TWO16 - t) % TWO40 && next != x
  {
    DelayOfNext(f, hops, g, Hop(c.addr, d));
    DelayOnClock(g, x, c);
    EpochAfter(Forward(g, c.addr, d), SentAt(g, x, c), d, f.toMarker, x, t);
  }

  /** The local epoch of a frame that arrives at `y` and declares `t + d`. */
  lemma EpochAfter(g: Blink, y: nat, d: nat, toMarker: nat, x: nat, t: nat)
    requires g.rpt != 0 && g.toMarker == toMarker < TWO16 && RepeatDelay(g) == t + d
    requires (y - d) % TWO40 == x % TWO40 && x < TWO40 && 0 < t <= TWO32
    ensures LocalOf(g, y) == (x - toMarker * TWO16 - t) % TWO40 && LocalOf(g, y) != x
  {
    LocalOfRelayed(g, y);
    LocalNumbers2(y, d, toMarker * TWO16, x, t);
  }

  lemma LocalNumbers2(y: nat, d: nat, back: nat, x: nat, t: nat)
    requires (y - d) % TWO40 == x % TWO40 && x < TWO40
    ensures W64(W64(y - back) - (t + d)) % TWO40 == (x - back - t) % TWO40
    ensures 0 < back + t < TWO40 ==> (x - back - t) % TWO40 != x
  {
    LocalNumbers(y, d, back, x);
    Low40(W64(y - back) - (t + d));
    Low40(W64(y - back) - d);
    SubtractLow40(W64(y - back) - d, x - back, t);
  }
}
