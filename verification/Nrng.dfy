/**
 N-way single-sided ranging: one request to a mask of slots, replies spaced by rank, stored in
 a ring by rank, and collected into a compact vector (lib/nrng, lib/twr_ss_nrng; cell addressing).
 */
module Nrng {
  import opened Common
  import opened Slots

  datatype Code = Invalid | RequestSent | T1 | FinalCode

  /** A ring frame; `stamps` stands for the timestamps and the rest of the payload. */
  datatype Frame = Frame(code: Code, seqno: nat, stamps: int)

  /** A reply as received: the sequence number, the rank it carries as `slot_id`, and its payload. */
  datatype Reply = Reply(seqno: nat, rank: nat, stamps: int)

  predicate Answered(f: Frame, seqno: nat) { f.code == FinalCode && f.seqno == seqno }

  function CellOf(base: nat, rank: nat, n: nat): nat
    requires n > 0
  {
    (base + rank) % n
  }

  // ----- The responder -----

  datatype Timing = Timing(holdoff: nat, guard: nat, duration: nat)

  /** Start of the reply after the request's arrival, before rounding to the radio's grid. */
  function ReplyDelay(t: Timing, rank: nat): nat { (t.holdoff + rank * (t.guard + t.duration)) * TWO16 }

  /** Distinct responders are at least one guard and one frame apart. */
  lemma RepliesApart(mask: nat, t: Timing, p: nat, q: nat)
    requires p < q && Bit(mask, p) && Bit(mask, q)
    ensures ReplyDelay(t, Rank(mask, q)) >= ReplyDelay(t, Rank(mask, p)) + (t.guard + t.duration) * TWO16
  {
    RankIncreases(mask, p, q);
    MoreSteps(Rank(mask, p), Rank(mask, q), t.guard + t.duration);
  }

  /**
   No reply starts before the holdoff is over, the first responder's starts right then, and each ends
   while the initiator, which allows a guard and a frame for every requested slot, still waits.
   */
  lemma RepliesInTime(mask: nat, k: nat, t: Timing, p: nat)
    requires mask < Pow2(k) && p < k && Bit(mask, p)
    ensures ReplyDelay(t, Rank(mask, p)) >= t.holdoff * TWO16
    ensures (forall q :: 0 <= q < p ==> !Bit(mask, q)) ==> ReplyDelay(t, Rank(mask, p)) == t.holdoff * TWO16
    ensures ReplyDelay(t, Rank(mask, p)) + (t.guard + t.duration) * TWO16
         <= (t.holdoff + PopCount(mask) * (t.guard + t.duration)) * TWO16
  {
    PopCountIsRank(mask, k);
    RankIncreases(mask, p, k);
    MoreSteps(Rank(mask, p), PopCount(mask), t.guard + t.duration);
    RankNonNegative(Rank(mask, p), t.guard + t.duration);
    if forall q :: 0 <= q < p ==> !Bit(mask, q) { NoLowerBits(mask, p); }
  }

  lemma RankNonNegative(rank: nat, step: nat)
    ensures rank * step >= 0 && (rank == 0 ==> rank * step == 0)
  {}

  lemma {:induction false} NoLowerBits(mask: nat, p: nat)
    requires forall q :: 0 <= q < p ==> !Bit(mask, q)
    ensures Rank(mask, p) == 0
    decreases p
  {
    if p > 0 {
      NoLowerBits(mask, p - 1);
      RankNext(mask, p - 1);
    }
  }

  lemma {:induction false} MoreSteps(a: nat, b: nat, step: nat)
    requires a < b
    ensures b * step >= a * step + step
    decreases b
  {
    assert b * step == (b - 1) * step + step;
    if a == b - 1 {
    } else {
      MoreSteps(a, b - 1, step);
    }
  }

  // ----- The ring of one round -----

  /** `rx_complete_cb` on a reply with the right sequence number. */
  function Store(frames: seq<Frame>, base: nat, r: Reply): seq<Frame>
    requires frames != []
  {
    frames[CellOf(base, r.rank, |frames|) := Frame(FinalCode, r.seqno, r.stamps)]
  }

  function AfterReplies(frames: seq<Frame>, base: nat, seqno: nat, replies: seq<Reply>): (r: seq<Frame>)
    requires frames != []
    ensures |r| == |frames|
    decreases |replies|
  {
    if replies == [] then frames
    else
      var before := AfterReplies(frames, base, seqno, replies[..|replies| - 1]);
      var r := replies[|replies| - 1];
      if r.seqno != seqno then before else Store(before, base, r)
  }

  /** The last accepted reply of a rank. */
  function LastOf(replies: seq<Reply>, seqno: nat, rank: nat): Option<int>
    decreases |replies|
  {
    if replies == [] then None
    else
      var r := replies[|replies| - 1];
      if r.seqno == seqno && r.rank == rank then Some(r.stamps) else LastOf(replies[..|replies| - 1], seqno, rank)
  }

  /** Different ranks below the ring size use different cells. */
  lemma CellsDiffer(base: nat, a: nat, b: nat, n: nat)
    requires n > 0 && a < n && b < n && CellOf(base, a, n) == CellOf(base, b, n)
    ensures a == b
  {
    var x, r := Divide(base + a, n);
    var y, s := Divide(base + b, n);
    SameCell(base + a, base + b, x, y, r, n);
  }

  lemma Divide(p: nat, n: nat) returns (q: nat, r: nat)
    requires n > 0
    ensures p == n * q + r && r == p % n
  {
    q, r := p / n, p % n;
  }

  lemma SameCell(p: nat, q: nat, x: nat, y: nat, r: nat, n: nat)
    requires p == n * x + r && q == n * y + r && p < q + n && q < p + n
    ensures p == q
  {
    if x < y {
      MoreSteps(x, y, n);
    } else if y < x {
      MoreSteps(y, x, n);
    }
  }

  /** After any replies, in any order and with repeats, a cell holds the last accepted reply of its rank. */
  lemma {:induction false} CellAfterReplies(frames: seq<Frame>, base: nat, seqno: nat, replies: seq<Reply>, rank: nat)
    requires frames != [] && rank < |frames|
    requires forall k :: 0 <= k < |replies| && replies[k].seqno == seqno ==> replies[k].rank < |frames|
    ensures
      var f := AfterReplies(frames, base, seqno, replies)[CellOf(base, rank, |frames|)];
      match LastOf(replies, seqno, rank)
      case None => f == frames[CellOf(base, rank, |frames|)]
      case Some(x) => f == Frame(FinalCode, seqno, x)
    decreases |replies|
  {
    if replies == [] {
    } else {
      var r := replies[|replies| - 1];
      CellAfterReplies(frames, base, seqno, replies[..|replies| - 1], rank);
      if r.seqno == seqno && CellOf(base, r.rank, |frames|) == CellOf(base, rank, |frames|) {
        CellsDiffer(base, r.rank, rank, |frames|);
      }
    }
  }

  // ----- The initiator -----

  class Initiator {
    const frames: array<Frame>
    var idx: nat
    var seqno: nat
    var nnodes: nat
    var slotMask: nat

    constructor (nframes: nat)
      requires nframes > 0
      ensures frames.Length == nframes && fresh(frames) && idx == 0xffff && seqno == 0
      ensures forall k :: 0 <= k < nframes ==> frames[k].code == Invalid
    {
      frames := new Frame[nframes](_ => Frame(Invalid, 0, 0));
      idx, seqno, nnodes, slotMask := 0xffff, 0, 0, 0;
    }

    /** `nrng_request`. */
    method Request(mask: nat)
      requires frames.Length > 0
      modifies this, frames
      ensures nnodes == PopCount(mask) && idx == (old(idx) + nnodes) % TWO16 && seqno == (old(seqno) + 1) % 256
      ensures slotMask == mask
      ensures var cell := idx % frames.Length;
              frames[..] == old(frames[..])[cell := old(frames[..])[cell].(code := RequestSent, seqno := seqno)]
    {
      nnodes := NumberOfBits(mask);
      idx := (idx + nnodes) % TWO16;
      seqno := (seqno + 1) % 256;
      var cell := idx % frames.Length;
      frames[cell] := frames[cell].(code := RequestSent, seqno := seqno);
      slotMask := mask;
    }

    /** The reply case of `rx_complete_cb`. */
    method RxReply(r: Reply)
      requires frames.Length > 0
      modifies frames
      ensures frames[..] == if r.seqno == seqno then Store(old(frames[..]), idx, r) else old(frames[..])
    {
      if seqno != r.seqno { return; }
      frames[(idx + r.rank) % frames.Length] := Frame(FinalCode, r.seqno, r.stamps);
    }

    predicate Responded(i: nat, base: nat)
      requires frames.Length > 0
      reads this, frames
    {
      Bit(slotMask, i) && Answered(frames[CellOf(base, Rank(slotMask, i), frames.Length)], seqno)
    }

    /** `nrng_get_ranges`: the mask of slots that responded, and their ranges in slot order. */
    method GetRanges(range: Frame -> real, nranges: nat, base: nat) returns (mask: nat, ranges: seq<real>)
      requires frames.Length > 0
      ensures mask < Pow2(nranges) && forall i :: 0 <= i < nranges ==> (Bit(mask, i) <==> Responded(i, base))
      ensures |ranges| == PopCount(mask)
      ensures forall i :: 0 <= i < nranges && Bit(mask, i) ==>
                && Rank(mask, i) < |ranges|
                && ranges[Rank(mask, i)] == range(frames[CellOf(base, Rank(slotMask, i), frames.Length)])
    {
      mask := Respondents(nranges, base);
      ranges := [];
      for i := 0 to nranges
        invariant |ranges| == Rank(mask, i)
        invariant forall p :: 0 <= p < i && Bit(mask, p) ==>
                    && Rank(mask, p) < |ranges|
                    && ranges[Rank(mask, p)] == range(frames[CellOf(base, Rank(slotMask, p), frames.Length)])
      {
        RankNext(mask, i);
        if Bit(mask, i) {
          var at := BitIndex(slotMask, Pow2(i), i);
          ranges := ranges + [range(frames[(base + at) % frames.Length])];
        }
      }
      PopCountIsRank(mask, nranges);
    }

    /** The first loop of `nrng_get_ranges`. */
    method Respondents(nranges: nat, base: nat) returns (mask: nat)
      requires frames.Length > 0
      ensures mask < Pow2(nranges) && forall i :: 0 <= i < nranges ==> (Bit(mask, i) <==> Responded(i, base))
    {
      mask := 0;
      for i := 0 to nranges
        invariant mask < Pow2(i) && forall p :: 0 <= p < i ==> (Bit(mask, p) <==> Responded(p, base))
      {
        HighBit(mask, i);
        if Bit(slotMask, i) {
          var at := BitIndex(slotMask, Pow2(i), i);
          var frame := frames[(base + at) % frames.Length];
          if frame.code == FinalCode && frame.seqno == seqno {
            mask := mask + Pow2(i);
          }
        }
      }
    }
  }

  /** Setting bit `i` of a smaller number. */
  lemma {:induction false} HighBit(m: nat, i: nat)
    requires m < Pow2(i)
    ensures m + Pow2(i) < Pow2(i + 1) && !Bit(m, i) && Bit(m + Pow2(i), i)
    ensures forall p :: 0 <= p < i ==> (Bit(m + Pow2(i), p) <==> Bit(m, p))
    decreases i
  {
    if i == 0 {
    } else {
      HighBit(m / 2, i - 1);
      var n := m + Pow2(i);
      assert n / 2 == m / 2 + Pow2(i - 1) && n % 2 == m % 2;
      forall p | 0 <= p < i ensures Bit(n, p) <==> Bit(m, p) {
        if p > 0 { assert Bit(n / 2, p - 1) <==> Bit(m / 2, p - 1); }
      }
    }
  }

  // ----- One round -----

  /** Replies with this sequence number come from slots of the mask and carry their rank; others are arbitrary. */
  ghost predicate FromSlots(replies: seq<Reply>, slots: seq<nat>, mask: nat, seqno: nat) {
    |slots| == |replies| && forall k :: 0 <= k < |replies| && replies[k].seqno == seqno ==>
      Bit(mask, slots[k]) && replies[k].rank == Rank(mask, slots[k])
  }

  /** The payload of the last reply of this round from a slot. */
  function LastFrom(replies: seq<Reply>, slots: seq<nat>, seqno: nat, slot: nat): Option<int>
    requires |slots| == |replies|
    decreases |replies|
  {
    if replies == [] then None
    else
      var k := |replies| - 1;
      if replies[k].seqno == seqno && slots[k] == slot then Some(replies[k].stamps)
      else LastFrom(replies[..k], slots[..k], seqno, slot)
  }

  /** The slot has replied in this round. */
  predicate Replied(replies: seq<Reply>, slots: seq<nat>, seqno: nat, slot: nat)
    requires |slots| == |replies|
  {
    exists k :: 0 <= k < |replies| && replies[k].seqno == seqno && slots[k] == slot
  }

  lemma {:induction false} LastBySlot(replies: seq<Reply>, slots: seq<nat>, mask: nat, seqno: nat, slot: nat)
    requires FromSlots(replies, slots, mask, seqno) && Bit(mask, slot)
    ensures LastOf(replies, seqno, Rank(mask, slot)) == LastFrom(replies, slots, seqno, slot)
    decreases |replies|
  {
    if replies == [] {
    } else {
      var k := |replies| - 1;
      LastBySlot(replies[..k], slots[..k], mask, seqno, slot);
      if replies[k].seqno == seqno {
        if slots[k] < slot { RankIncreases(mask, slots[k], slot); }
        if slot < slots[k] { RankIncreases(mask, slot, slots[k]); }
      }
    }
  }

  lemma {:induction false} LastFromIff(replies: seq<Reply>, slots: seq<nat>, seqno: nat, slot: nat)
    requires |slots| == |replies|
    ensures LastFrom(replies, slots, seqno, slot).Some? <==> Replied(replies, slots, seqno, slot)
    decreases |replies|
  {
    if replies == [] {
    } else {
      var k := |replies| - 1;
      LastFromIff(replies[..k], slots[..k], seqno, slot);
      if j :| 0 <= j < k && replies[j].seqno == seqno && slots[j] == slot {
        assert replies[..k][j].seqno == seqno && slots[..k][j] == slot;
      }
    }
  }

  /** A cell of the window that holds an answer with this sequence number although nobody has replied yet. */
  predicate StaleAt(frames: seq<Frame>, base: nat, rank: nat, seqno: nat)
    requires frames != []
  {
    Answered(frames[CellOf(base, rank, |frames|)], seqno)
  }

  /**
   The ring after a request to `mask` (of at most as many slots as frames) and any frames, in any
   order, with repeats, and with other sequence numbers among them: the cell of a slot is answered
   if and only if the slot replied in this round or the cell was stale; a slot that replied has
   its last reply there.
   */
  lemma RoundResult(frames: seq<Frame>, base: nat, seqno: nat, mask: nat, replies: seq<Reply>, slots: seq<nat>,
                    slot: nat, bits: nat)
    requires frames != [] && mask < Pow2(bits) && PopCount(mask) <= |frames|
    requires FromSlots(replies, slots, mask, seqno) && (forall k :: 0 <= k < |slots| ==> slots[k] < bits)
    requires slot < bits && Bit(mask, slot)
    ensures
      var f := AfterReplies(frames, base, seqno, replies)[CellOf(base, Rank(mask, slot), |frames|)];
      && (Answered(f, seqno) <==>
            Replied(replies, slots, seqno, slot) || StaleAt(frames, base, Rank(mask, slot), seqno))
      && (Replied(replies, slots, seqno, slot) ==>
            LastFrom(replies, slots, seqno, slot).Some?
            && f == Frame(FinalCode, seqno, LastFrom(replies, slots, seqno, slot).value))
  {
    RankBijection(mask, bits);
    forall k | 0 <= k < |replies| && replies[k].seqno == seqno ensures replies[k].rank < |frames| {
      assert Bit(mask, slots[k]);
    }
    CellAfterReplies(frames, base, seqno, replies, Rank(mask, slot));
    LastBySlot(replies, slots, mask, seqno, slot);
    LastFromIff(replies, slots, seqno, slot);
  }

  /** The request marks its own cell and leaves the others of its window alone. */
  lemma WindowAfterRequest(before: seq<Frame>, after: seq<Frame>, base: nat, rank: nat, seqno: nat)
    requires before != [] && rank < |before|
    requires after == before[base % |before| := before[base % |before|].(code := RequestSent, seqno := seqno)]
    ensures StaleAt(after, base, rank, seqno) <==> rank > 0 && StaleAt(before, base, rank, seqno)
  {
    if rank > 0 && CellOf(base, rank, |before|) == CellOf(base, 0, |before|) { CellsDiffer(base, rank, 0, |before|); }
  }

  /**
   A whole round with any frames received: a slot is in the mask returned if and only if it
   replied in this round or its cell was stale, and entry j of the vector belongs to the j-th
   lowest slot of the mask: for a slot that replied it is computed from the slot's last reply.
   */
  method Round(node: Initiator, mask: nat, replies: seq<Reply>, slots: seq<nat>, range: Frame -> real, nranges: nat)
    returns (got: nat, ranges: seq<real>)
    requires node.frames.Length > 0 && mask < Pow2(nranges) && PopCount(mask) <= node.frames.Length
    requires FromSlots(replies, slots, mask, (node.seqno + 1) % 256)
    requires forall k :: 0 <= k < |slots| ==> slots[k] < nranges
    modifies node, node.frames
    ensures node.seqno == (old(node.seqno) + 1) % 256
    ensures got < Pow2(nranges) && |ranges| == PopCount(got)
    ensures forall i :: 0 <= i < nranges ==>
              (Bit(got, i) <==> RoundBit(old(node.frames[..]), node.idx, mask, replies, slots, node.seqno, i))
    ensures forall i :: 0 <= i < nranges && Replied(replies, slots, node.seqno, i) ==>
              && Rank(got, i) < |ranges| && LastFrom(replies, slots, node.seqno, i).Some?
              && ranges[Rank(got, i)]
                 == range(Frame(FinalCode, node.seqno, LastFrom(replies, slots, node.seqno, i).value))
    ensures AnswersUpTo(old(node.frames[..]), old(node.seqno)) && old(node.seqno) < 255 ==>
              AnswersUpTo(node.frames[..], node.seqno)
  {
    ghost var before := node.frames[..];
    node.Request(mask);
    ghost var start := node.frames[..];
    var k := 0;
    while k < |replies|
      invariant 0 <= k <= |replies| && node.idx == (old(node.idx) + PopCount(mask)) % TWO16
      invariant node.seqno == (old(node.seqno) + 1) % 256 && node.slotMask == mask
      invariant node.frames[..] == AfterReplies(start, node.idx, node.seqno, replies[..k])
    {
      assert replies[..k + 1][..k] == replies[..k];
      node.RxReply(replies[k]);
      k := k + 1;
    }
    assert replies[..k] == replies;
    got, ranges := node.GetRanges(range, nranges, node.idx);
    forall i | 0 <= i < nranges
      ensures Bit(got, i) <==> RoundBit(before, node.idx, mask, replies, slots, node.seqno, i)
      ensures Replied(replies, slots, node.seqno, i) ==>
                Bit(mask, i) && LastFrom(replies, slots, node.seqno, i).Some?
                && node.frames[CellOf(node.idx, Rank(mask, i), node.frames.Length)]
                   == Frame(FinalCode, node.seqno, LastFrom(replies, slots, node.seqno, i).value)
    {
      RoundCell(before, start, node.idx, node.seqno, mask, replies, slots, i, nranges);
    }
    RoundAnswers(before, start, node.idx, node.seqno, replies);
  }

  /** The slot replied in this round, or was asked and found its cell stale. */
  predicate RoundBit(before: seq<Frame>, base: nat, mask: nat, replies: seq<Reply>, slots: seq<nat>, seqno: nat, i: nat)
    requires before != [] && |slots| == |replies|
  {
    || Replied(replies, slots, seqno, i)
    || (Bit(mask, i) && Rank(mask, i) > 0 && StaleAt(before, base, Rank(mask, i), seqno))
  }

  lemma RoundCell(before: seq<Frame>, start: seq<Frame>, base: nat, seqno: nat, mask: nat, replies: seq<Reply>,
                  slots: seq<nat>, i: nat, bits: nat)
    requires before != [] && mask < Pow2(bits) && PopCount(mask) <= |before| && i < bits
    requires FromSlots(replies, slots, mask, seqno) && (forall k :: 0 <= k < |slots| ==> slots[k] < bits)
    requires start == before[base % |before| := before[base % |before|].(code := RequestSent, seqno := seqno)]
    ensures Replied(replies, slots, seqno, i) ==> Bit(mask, i) && LastFrom(replies, slots, seqno, i).Some?
    ensures Bit(mask, i) ==>
              var f := AfterReplies(start, base, seqno, replies)[CellOf(base, Rank(mask, i), |start|)];
              && (Answered(f, seqno) <==> RoundBit(before, base, mask, replies, slots, seqno, i))
              && (Replied(replies, slots, seqno, i) ==>
                    f == Frame(FinalCode, seqno, LastFrom(replies, slots, seqno, i).value))
  {
    LastFromIff(replies, slots, seqno, i);
    if Bit(mask, i) {
      RankBijection(mask, bits);
      RoundResult(start, base, seqno, mask, replies, slots, i, bits);
      WindowAfterRequest(before, start, base, Rank(mask, i), seqno);
    }
  }

  // ----- Rounds from a fresh ring -----

  /** Every answer in the ring is from one of the rounds 1 to `n`. */
  ghost predicate AnswersUpTo(frames: seq<Frame>, n: nat) {
    forall k :: 0 <= k < |frames| && frames[k].code == FinalCode ==> 1 <= frames[k].seqno <= n
  }

  lemma {:induction false} RepliesAnswer(frames: seq<Frame>, base: nat, seqno: nat, replies: seq<Reply>)
    requires frames != [] && AnswersUpTo(frames, seqno) && seqno > 0
    ensures AnswersUpTo(AfterReplies(frames, base, seqno, replies), seqno)
    decreases |replies|
  {
    if replies == [] {
    } else {
      RepliesAnswer(frames, base, seqno, replies[..|replies| - 1]);
    }
  }

  lemma RoundAnswers(before: seq<Frame>, start: seq<Frame>, base: nat, seqno: nat, replies: seq<Reply>)
    requires before != []
    requires start == before[base % |before| := before[base % |before|].(code := RequestSent, seqno := seqno)]
    ensures seqno > 0 && AnswersUpTo(before, seqno - 1) ==>
              AnswersUpTo(AfterReplies(start, base, seqno, replies), seqno)
  {
    if seqno > 0 && AnswersUpTo(before, seqno - 1) { RepliesAnswer(start, base, seqno, replies); }
  }

  /** Until sequence numbers come round again no cell is stale. */
  lemma NothingStale(frames: seq<Frame>, base: nat, mask: nat, replies: seq<Reply>, slots: seq<nat>, n: nat, i: nat)
    requires frames != [] && |slots| == |replies| && AnswersUpTo(frames, n) && n < 256
    ensures RoundBit(frames, base, mask, replies, slots, (n + 1) % 256, i)
            <==> Replied(replies, slots, (n + 1) % 256, i)
  {}

  /** What happens in one round: the mask asked for, and the frames received with the slots they are from. */
  datatype Exchange = Exchange(mask: nat, replies: seq<Reply>, slots: seq<nat>)

  ghost predicate Proper(x: Exchange, seqno: nat, nframes: nat, nranges: nat) {
    && x.mask < Pow2(nranges) && PopCount(x.mask) <= nframes && FromSlots(x.replies, x.slots, x.mask, seqno)
    && forall k :: 0 <= k < |x.slots| ==> x.slots[k] < nranges
  }

  /** The first 256 rounds of a fresh initiator return exactly the slots that replied. */
  method Session(nframes: nat, rounds: seq<Exchange>, range: Frame -> real, nranges: nat) returns (masks: seq<nat>)
    requires nframes > 0 && |rounds| <= 256
    requires forall t :: 0 <= t < |rounds| ==> Proper(rounds[t], (t + 1) % 256, nframes, nranges)
    ensures |masks| == |rounds|
    ensures forall t, i :: 0 <= t < |rounds| && 0 <= i < nranges ==>
              (Bit(masks[t], i) <==>
                 |rounds[t].slots| == |rounds[t].replies|
                 && Replied(rounds[t].replies, rounds[t].slots, (t + 1) % 256, i))
  {
    var node := new Initiator(nframes);
    masks := [];
    for t := 0 to |rounds|
      invariant |masks| == t && node.frames.Length == nframes && node.seqno == t % 256 && fresh(node)
      invariant fresh(node.frames)
      invariant t < 256 ==> AnswersUpTo(node.frames[..], t)
      invariant forall u, i :: 0 <= u < t && 0 <= i < nranges ==>
                  (Bit(masks[u], i) <==>
                     |rounds[u].slots| == |rounds[u].replies|
                     && Replied(rounds[u].replies, rounds[u].slots, (u + 1) % 256, i))
    {
      ghost var before := node.frames[..];
      var x := rounds[t];
      assert Proper(x, (t + 1) % 256, nframes, nranges);
      var got, ranges := Round(node, x.mask, x.replies, x.slots, range, nranges);
      forall i | 0 <= i < nranges ensures Bit(got, i) <==> Replied(x.replies, x.slots, (t + 1) % 256, i) {
        NothingStale(before, node.idx, x.mask, x.replies, x.slots, t, i);
      }
      masks := masks + [got];
    }
  }
}
