/**
 The PAN master's table of devices: short addresses and time slots handed out under leases
 (lib/panmaster/src/panmaster.c).
 */
module PanAllocator {
  import opened Common

  const FREE := 0xffff
  const NO_SLOT := 0xffff

  /** The entries that the 8-bit index of a record can tell apart. */
  const MAX_NODES := 0x100

  /** `struct panmaster_node_idx`; a free entry has address `FREE`.  The role has one byte. */
  datatype Entry = Entry(addr: nat, slot: nat, euid: nat, role: U8, perm: bool, lease: nat)

  /** `slot_lease_expired`: both times are compared as signed 32-bit milliseconds; 0 is no lease. */
  predicate Expired(e: Entry, now: nat) {
    e.lease % TWO32 != 0 && Signed32(now) > Signed32(e.lease)
  }

  function Signed32(x: nat): int {
    var u := x % TWO32;
    if u < TWO31 then u else u - TWO32
  }

  predicate Live(e: Entry, now: nat) { e.perm || !Expired(e, now) }

  /** The entry keeps `slot` from a device with address `addr` and this role. */
  predicate Blocks(e: Entry, slot: nat, addr: nat, role: nat, now: nat) {
    e.addr != FREE && e.role == role && e.slot == slot && e.addr != addr && Live(e, now)
  }

  predicate Blocked(table: seq<Entry>, slot: nat, addr: nat, role: nat, now: nat) {
    exists j :: 0 <= j < |table| && Blocks(table[j], slot, addr, role, now)
  }

  // ----- Slots -----

  /** The least slot from `s` on that nobody blocks, or `NO_SLOT`. */
  function LeastFree(table: seq<Entry>, addr: nat, role: nat, now: nat, s: nat): (r: nat)
    requires s <= NO_SLOT
    ensures s <= r <= NO_SLOT
    ensures r < NO_SLOT ==> !Blocked(table, r, addr, role, now)
    ensures forall t :: s <= t < r ==> Blocked(table, t, addr, role, now)
    decreases NO_SLOT - s
  {
    if s == NO_SLOT || !Blocked(table, s, addr, role, now) then s
    else LeastFree(table, addr, role, now, s + 1)
  }

  /** The inner loop of `first_free_slot_id`. */
  method SlotTaken(table: array<Entry>, slot: nat, addr: nat, role: nat, now: nat) returns (taken: bool)
    ensures taken == Blocked(table[..], slot, addr, role, now)
  {
    var j := 0;
    while j < table.Length
      invariant 0 <= j <= table.Length
      invariant forall k :: 0 <= k < j ==> !Blocks(table[..][k], slot, addr, role, now)
    {
      if table[j].addr != FREE && role == table[j].role && slot == table[j].slot && addr != table[j].addr
         && (!Expired(table[j], now) || table[j].perm)
      {
        assert Blocks(table[..][j], slot, addr, role, now);
        return true;
      }
      j := j + 1;
    }
    return false;
  }

  /** `first_free_slot_id`. */
  method FirstFreeSlot(table: array<Entry>, addr: nat, role: nat, now: nat) returns (slot: nat)
    ensures slot == LeastFree(table[..], addr, role, now, 0)
  {
    slot := 0;
    while slot < NO_SLOT
      invariant slot <= NO_SLOT
      invariant LeastFree(table[..], addr, role, now, slot) == LeastFree(table[..], addr, role, now, 0)
      decreases NO_SLOT - slot
    {
      var taken := SlotTaken(table, slot, addr, role, now);
      if !taken { return; }
      slot := slot + 1;
    }
  }

  /** The entries that can keep any slot from this device. */
  function Rivals(table: seq<Entry>, addr: nat, role: nat, now: nat): set<nat> {
    set j | && 0 <= j < |table| && table[j].addr != FREE && table[j].role == role
            && table[j].addr != addr && Live(table[j], now)
  }

  /** Pigeonhole: blocking the slots below `k` takes `k` entries. */
  lemma {:induction false} BlockersOf(table: seq<Entry>, addr: nat, role: nat, now: nat, k: nat)
    returns (used: set<nat>)
    requires forall t :: 0 <= t < k ==> Blocked(table, t, addr, role, now)
    ensures |used| == k && used <= Rivals(table, addr, role, now) && forall j <- used :: table[j].slot < k
    decreases k
  {
    if k == 0 {
      used := {};
    } else {
      used := BlockersOf(table, addr, role, now, k - 1);
      assert Blocked(table, k - 1, addr, role, now);
      var j :| 0 <= j < |table| && Blocks(table[j], k - 1, addr, role, now);
      assert j !in used;
      used := used + {j};
    }
  }

  lemma SetSize(a: set<nat>, b: set<nat>)
    requires a <= b
    ensures |a| <= |b|
  {
    assert b == a + (b - a);
  }

  lemma {:induction false} BoundedSet(a: set<nat>, n: nat)
    requires forall j <- a :: j < n
    ensures |a| <= n
  {
    if n == 0 {
      assert a == {};
    } else {
      BoundedSet(a - {n - 1}, n - 1);
    }
  }

  /** The slot found is at most the number of rivals, so a table below 65535 entries never runs out. */
  lemma SlotWithinRivals(table: seq<Entry>, addr: nat, role: nat, now: nat)
    ensures LeastFree(table, addr, role, now, 0) <= |Rivals(table, addr, role, now)|
    ensures |table| < NO_SLOT ==> LeastFree(table, addr, role, now, 0) < NO_SLOT
  {
    var s := LeastFree(table, addr, role, now, 0);
    var used := BlockersOf(table, addr, role, now, s);
    SetSize(used, Rivals(table, addr, role, now));
    BoundedSet(Rivals(table, addr, role, now), |table|);
  }

  // ----- Short addresses -----

  function Candidate(euid: nat, i: nat): nat {
    if i == 0 then euid % 0x1_0000 else (i * 0x1000 % 0x1_0000) + euid % 0x1000
  }

  predicate AddrTaken(table: seq<Entry>, addr: nat) {
    exists j :: 0 <= j < |table| && table[j].addr == addr
  }

  /** The first candidate from `i` on that is nonzero and not in the table, or 0. */
  function FreeAddr(table: seq<Entry>, euid: nat, i: nat): (r: nat)
    requires i <= |table|
    ensures r != 0 ==> !AddrTaken(table, r) && exists k :: i <= k < |table| && r == Candidate(euid, k)
    ensures r == 0 ==> forall k :: i <= k < |table| ==> Candidate(euid, k) == 0 || AddrTaken(table, Candidate(euid, k))
    decreases |table| - i
  {
    if i == |table| then 0
    else if Candidate(euid, i) != 0 && !AddrTaken(table, Candidate(euid, i)) then Candidate(euid, i)
    else FreeAddr(table, euid, i + 1)
  }

  /** `first_free_short_addr`. */
  method FirstFreeAddr(table: array<Entry>, euid: nat) returns (addr: nat)
    ensures addr == FreeAddr(table[..], euid, 0)
  {
    addr := 0;
    var i := 0;
    while i < table.Length
      invariant 0 <= i <= table.Length && addr == 0 && FreeAddr(table[..], euid, i) == FreeAddr(table[..], euid, 0)
    {
      addr := if i > 0 then (i * 0x1000 % 0x1_0000) + euid % 0x1000 else euid % 0x1_0000;
      ghost var candidate := addr;
      var j := 0;
      while j < table.Length
        invariant 0 <= j <= table.Length && addr == candidate
        invariant forall k :: 0 <= k < j ==> table[k].addr != candidate
      {
        if addr == table[j].addr {
          assert table[..][j].addr == candidate;
          addr := 0;
          break;
        }
        j := j + 1;
      }
      if addr != 0 { return; }
      i := i + 1;
    }
  }

  // ----- Requests -----

  /** The used entry of a device, or the length of the table. */
  function FindEuid(table: seq<Entry>, euid: nat, i: nat): (r: nat)
    requires i <= |table|
    ensures i <= r <= |table| && (r < |table| ==> table[r].addr != FREE && table[r].euid == euid)
    ensures forall j :: i <= j < r ==> table[j].addr == FREE || table[j].euid != euid
    decreases |table| - i
  {
    if i == |table| || (table[i].addr != FREE && table[i].euid == euid) then i else FindEuid(table, euid, i + 1)
  }

  function FindFree(table: seq<Entry>, i: nat): (r: nat)
    requires i <= |table|
    ensures i <= r <= |table| && (r < |table| ==> table[r].addr == FREE)
    ensures forall j :: i <= j < r ==> table[j].addr != FREE
    decreases |table| - i
  {
    if i == |table| || table[i].addr == FREE then i else FindFree(table, i + 1)
  }

  /** What a device asks for; the role has two bytes on the air. */
  datatype Ask = Ask(euid: nat, role: U16, lease: nat, now: nat)

  function LeaseEnd(q: Ask): nat { (q.now + q.lease * 1000) % TWO32 }

  /**
   The known device at entry `i` asks again: a new slot unless it is permanent, and a new lease,
   both written through the record's index.
   */
  function Renew(table: seq<Entry>, i: nat, q: Ask): (r: seq<Entry>)
    requires i < |table|
    ensures |r| == |table|
  {
    var (e, k) := (table[i], i % MAX_NODES);
    var slot := if e.perm then table[k].slot else LeastFree(table, e.addr, q.role, q.now, 0);
    table[k := table[k].(slot := slot, lease := LeaseEnd(q))]
  }

  /** A new device takes the free entry `i`, which keeps a byte of its role; the lease goes through the index. */
  function Admit(table: seq<Entry>, i: nat, q: Ask): (r: seq<Entry>)
    requires i < |table|
    ensures |r| == |table|
  {
    var named := table[i := table[i].(addr := FreeAddr(table, q.euid, 0), euid := q.euid, role := q.role % 0x100)];
    var slotted := named[i := named[i].(slot := LeastFree(named, named[i].addr, q.role, q.now, 0))];
    slotted[i % MAX_NODES := slotted[i % MAX_NODES].(lease := LeaseEnd(q))]
  }

  /** The device is known or there is a free entry. */
  predicate HasPlace(table: seq<Entry>, q: Ask) {
    FindEuid(table, q.euid, 0) < |table| || FindFree(table, 0) < |table|
  }

  /** `panrequest_cb`: the table afterwards.  An unknown device finding no free entry changes nothing. */
  function Request(table: seq<Entry>, q: Ask): (r: seq<Entry>)
    ensures |r| == |table|
  {
    var i := FindEuid(table, q.euid, 0);
    if i < |table| then Renew(table, i, q)
    else
      var k := FindFree(table, 0);
      if k < |table| then Admit(table, k, q) else table
  }

  /**
   `panmaster_delete_node`: the entry is cleared, but saving the record then writes back the role
   and the permanence that the record has in flash.
   */
  function Delete(table: seq<Entry>, i: nat, role: U8, perm: bool): seq<Entry>
    requires i < |table|
  {
    table[i := table[i].(addr := FREE, euid := 0xffff_ffff_ffff_ffff, slot := NO_SLOT, role := role, perm := perm)]
  }

  // ----- The save queue -----

  /** What a queued record will write into its entry. */
  datatype Copy = Copy(index: U8, role: U8, perm: bool)

  /** A place of the queue is taken while its identifier is not 0; once saved it is all zero. */
  datatype Place = Place(taken: bool, copy: Copy)

  const BLANK := Copy(0, 0, false)
  const EMPTY := Place(false, BLANK)

  /** The four bits that a record has for the role. */
  function RoleBits(role: nat): U8 { role % 16 }

  /** The record that a request leaves in its place; if no entry is found the place stays as it was. */
  function Queued(table: seq<Entry>, q: Ask, was: Copy): Copy {
    var i := FindEuid(table, q.euid, 0);
    if i < |table| then
      var held := RoleBits(table[i].role);
      Copy(i % MAX_NODES, if held != q.role && q.role > 0 then RoleBits(q.role) else held, table[i].perm)
    else
      var k := FindFree(table, 0);
      if k < |table| then Copy(k % MAX_NODES, RoleBits(q.role), false) else was
  }

  /** `panmaster_save_node`. */
  function Save(table: seq<Entry>, c: Copy): (r: seq<Entry>)
    ensures |r| == |table|
  {
    if c.index < |table| then table[c.index := table[c.index].(role := c.role, perm := c.perm)] else table
  }

  /** The table and the queue of records to save. */
  datatype Master = Master(table: seq<Entry>, queue: seq<Place>)

  function FirstEmpty(queue: seq<Place>, i: nat): (r: nat)
    requires i <= |queue|
    ensures i <= r <= |queue| && (r < |queue| ==> !queue[r].taken)
    decreases |queue| - i
  {
    if i == |queue| || !queue[i].taken then i else FirstEmpty(queue, i + 1)
  }

  /** `panrequest_cb` with its place in the queue; a full queue refuses the request. */
  function OnRequest(m: Master, q: Ask): Master {
    var k := FirstEmpty(m.queue, 0);
    if k == |m.queue| then m
    else Master(Request(m.table, q), m.queue[k := Place(q.euid != 0, Queued(m.table, q, m.queue[k].copy))])
  }

  /** `panmaster_update_node` for one place: saved if the record differs from the one in flash. */
  function OnSave(m: Master, k: nat, differs: bool): Master {
    if k < |m.queue| && m.queue[k].taken then
      Master(if differs then Save(m.table, m.queue[k].copy) else m.table, m.queue[k := EMPTY])
    else m
  }

  /** `panmaster_postprocess` from place `k` on. */
  function OnPostprocess(m: Master, k: nat, differs: seq<bool>): Master
    requires |differs| == |m.queue|
    decreases |m.queue| - k
  {
    if k >= |m.queue| then m else OnPostprocess(OnSave(m, k, differs[k]), k + 1, differs)
  }

  class PanMaster {
    const table: array<Entry>
    const queue: array<Place>

    ghost function St(): Master
      reads table, queue
    {
      Master(table[..], queue[..])
    }

    constructor (size: nat, places: nat, blank: Entry)
      requires blank.addr == FREE
      ensures fresh(table) && table.Length == size && forall k :: 0 <= k < size ==> table[k] == blank
      ensures fresh(queue) && queue.Length == places && forall k :: 0 <= k < places ==> queue[k] == EMPTY
    {
      table := new Entry[size](_ => blank);
      queue := new Place[places](_ => EMPTY);
    }

    /** `panrequest_cb` over `panmaster_idx_find_node`. */
    method PanRequest(q: Ask) returns (granted: bool, addr: nat, slot: nat)
      modifies table, queue
      ensures St() == OnRequest(old(St()), q)
      ensures granted ==>
                exists i :: && 0 <= i < table.Length && table[i].euid == q.euid
                            && table[i].addr == addr && table[i % MAX_NODES].slot == slot
      ensures granted == (FirstEmpty(old(queue[..]), 0) < queue.Length && HasPlace(old(table[..]), q))
    {
      granted, addr, slot := false, 0, 0;
      var k := 0;
      while k < queue.Length && queue[k].taken
        invariant 0 <= k <= queue.Length && FirstEmpty(queue[..], k) == FirstEmpty(queue[..], 0)
      {
        k := k + 1;
      }
      if k == queue.Length { return; }
      var copy;
      granted, addr, slot, copy := Serve(q, queue[k].copy);
      queue[k] := Place(q.euid != 0, copy);
    }

    /** The table's part of a request. */
    method Serve(q: Ask, was: Copy) returns (granted: bool, addr: nat, slot: nat, copy: Copy)
      modifies table
      ensures table[..] == Request(old(table[..]), q) && copy == Queued(old(table[..]), q, was)
      ensures granted ==>
                exists i :: && 0 <= i < table.Length && table[i].euid == q.euid
                            && table[i].addr == addr && table[i % MAX_NODES].slot == slot
      ensures granted == HasPlace(old(table[..]), q)
    {
      granted, addr, slot, copy := false, 0, 0, was;
      var i := 0;
      while i < table.Length && !(table[i].addr != FREE && table[i].euid == q.euid)
        invariant 0 <= i <= table.Length && FindEuid(table[..], q.euid, i) == FindEuid(table[..], q.euid, 0)
      {
        i := i + 1;
      }
      if i < table.Length {
        var held := RoleBits(table[i].role);
        copy := Copy(i % MAX_NODES, held, table[i].perm);
        addr, slot := RenewAt(i, q);
        if held != q.role && q.role > 0 { copy := copy.(role := RoleBits(q.role)); }
        granted := true;
        return;
      }
      i := 0;
      while i < table.Length && table[i].addr != FREE
        invariant 0 <= i <= table.Length && FindFree(table[..], i) == FindFree(table[..], 0)
      {
        i := i + 1;
      }
      if i < table.Length {
        copy := Copy(i % MAX_NODES, RoleBits(q.role), false);
        addr, slot := AdmitAt(i, q);
        granted := true;
      }
    }

    /** `panmaster_postprocess`; `differs` says which records are not in flash as they are. */
    method Postprocess(differs: seq<bool>)
      requires |differs| == queue.Length
      modifies table, queue
      ensures St() == OnPostprocess(old(St()), 0, differs)
    {
      var k := 0;
      while k < queue.Length
        invariant 0 <= k <= queue.Length
        invariant OnPostprocess(St(), k, differs) == OnPostprocess(old(St()), 0, differs)
      {
        ghost var before := St();
        if queue[k].taken {
          var c := queue[k].copy;
          if differs[k] && c.index < table.Length {
            table[c.index] := table[c.index].(role := c.role, perm := c.perm);
          }
          queue[k] := EMPTY;
        }
        assert St() == OnSave(before, k, differs[k]);
        k := k + 1;
      }
    }

    method RenewAt(i: nat, q: Ask) returns (addr: nat, slot: nat)
      requires i < table.Length
      modifies table
      ensures table[..] == Renew(old(table[..]), i, q)
      ensures addr == table[i].addr && slot == table[i % MAX_NODES].slot && table[i].euid == old(table[i].euid)
    {
      var k := i % MAX_NODES;
      ghost var before := table[..];
      addr := table[i].addr;
      if !table[i].perm {
        slot := FirstFreeSlot(table, addr, q.role, q.now);
        table[k] := table[k].(slot := slot);
        assert table[..] == before[k := before[k].(slot := slot)];
      }
      slot := table[k].slot;
      table[k] := table[k].(lease := LeaseEnd(q));
      assert table[..] == before[k := before[k].(slot := slot, lease := LeaseEnd(q))];
    }

    method AdmitAt(i: nat, q: Ask) returns (addr: nat, slot: nat)
      requires i < table.Length
      modifies table
      ensures table[..] == Admit(old(table[..]), i, q)
      ensures addr == table[i].addr && slot == table[i % MAX_NODES].slot && table[i].euid == q.euid
    {
      var k := i % MAX_NODES;
      ghost var before := table[..];
      addr := FirstFreeAddr(table, q.euid);
      table[i] := table[i].(addr := addr, euid := q.euid, role := q.role % 0x100);
      ghost var named := table[..];
      assert named == before[i := before[i].(addr := addr, euid := q.euid, role := q.role % 0x100)];
      slot := FirstFreeSlot(table, addr, q.role, q.now);
      table[i] := table[i].(slot := slot);
      ghost var slotted := table[..];
      assert slotted == named[i := named[i].(slot := slot)];
      slot := table[k].slot;
      table[k] := table[k].(lease := LeaseEnd(q));
      assert table[..] == slotted[k := slotted[k].(lease := LeaseEnd(q))];
    }

    method DeleteAt(i: nat, role: U8, perm: bool)
      requires i < table.Length
      modifies table
      ensures table[..] == Delete(old(table[..]), i, role, perm)
    {
      table[i] := table[i].(addr := FREE, euid := 0xffff_ffff_ffff_ffff, slot := NO_SLOT, perm := false);
      table[i] := table[i].(role := role, perm := perm);
    }
  }

  // ----- Runs -----

  /** Used, live entries of one role with different addresses. */
  predicate Contend(a: Entry, b: Entry, now: nat) {
    a.addr != FREE && b.addr != FREE && a.role == b.role && a.addr != b.addr && Live(a, now) && Live(b, now)
  }

  /** No two of them share a slot. */
  ghost predicate SlotsApart(table: seq<Entry>, now: nat) {
    forall i, j :: 0 <= i < |table| && 0 <= j < |table| && i != j && Contend(table[i], table[j], now) ==>
      table[i].slot != table[j].slot || table[i].slot == NO_SLOT
  }

  /** Allocated addresses other than 0 are distinct. */
  ghost predicate AddrsApart(table: seq<Entry>) {
    forall i, j :: 0 <= i < |table| && 0 <= j < |table| && i != j && table[i].addr == table[j].addr ==>
      table[i].addr == 0 || table[i].addr == FREE
  }

  /** A lease that has run out stays so until it is renewed. */
  lemma LiveEarlier(e: Entry, now: nat, later: nat)
    requires now <= later < TWO31 && Live(e, later)
    ensures Live(e, now)
  {}

  lemma SlotsStayApart(table: seq<Entry>, now: nat, later: nat)
    requires now <= later < TWO31 && SlotsApart(table, now)
    ensures SlotsApart(table, later)
  {
    forall i, j | 0 <= i < |table| && 0 <= j < |table| && i != j && Contend(table[i], table[j], later)
      ensures table[i].slot != table[j].slot || table[i].slot == NO_SLOT
    {
      LiveEarlier(table[i], now, later);
      LiveEarlier(table[j], now, later);
      assert Contend(table[i], table[j], now);
    }
  }

  /** An entry changed to one whose slot nobody keeps from it. */
  lemma PutFree(table: seq<Entry>, i: nat, e: Entry, now: nat)
    requires i < |table| && SlotsApart(table, now)
    requires forall j :: 0 <= j < |table| && j != i && Contend(table[j], e, now) ==>
               table[j].slot != e.slot || e.slot == NO_SLOT
    ensures SlotsApart(table[i := e], now)
  {
    var t := table[i := e];
    forall a, b | 0 <= a < |t| && 0 <= b < |t| && a != b && Contend(t[a], t[b], now)
      ensures t[a].slot != t[b].slot || t[a].slot == NO_SLOT
    {
      if a == i {
        assert Contend(table[b], e, now);
      } else if b == i {
        assert Contend(table[a], e, now);
      } else {
        assert Contend(table[a], table[b], now);
      }
    }
  }

  /** The entry of a known device that asks again. */
  lemma Renewed(table: seq<Entry>, i: nat, q: Ask) returns (slot: nat, e: Entry)
    requires i < |table| <= MAX_NODES
    ensures slot == if table[i].perm then table[i].slot else LeastFree(table, table[i].addr, q.role, q.now, 0)
    ensures e == table[i].(slot := slot, lease := LeaseEnd(q)) && Renew(table, i, q) == table[i := e]
  {
    slot := if table[i].perm then table[i].slot else LeastFree(table, table[i].addr, q.role, q.now, 0);
    e := table[i].(slot := slot, lease := LeaseEnd(q));
  }

  lemma RenewKeeps(table: seq<Entry>, i: nat, q: Ask)
    requires i < |table| <= MAX_NODES && table[i].addr != FREE && table[i].role == q.role
    requires SlotsApart(table, q.now) && AddrsApart(table)
    ensures SlotsApart(Renew(table, i, q), q.now) && AddrsApart(Renew(table, i, q))
  {
    var e := Renew(table, i, q)[i];
    forall j | 0 <= j < |table| && j != i && Contend(table[j], e, q.now)
      ensures table[j].slot != e.slot || e.slot == NO_SLOT
    {
      if table[i].perm {
        assert Contend(table[j], table[i], q.now);
      } else {
        assert table[j].slot == e.slot ==> Blocks(table[j], e.slot, table[i].addr, q.role, q.now);
      }
    }
    PutFree(table, i, e, q.now);
  }

  /** The entry that a new device gets in a table of at most 256. */
  lemma Admitted(table: seq<Entry>, i: nat, q: Ask) returns (addr: nat, slot: nat, e: Entry)
    requires i < |table| <= MAX_NODES && table[i].addr == FREE && q.role < 0x100
    ensures Admit(table, i, q) == table[i := e] && e.addr == addr && e.role == q.role && e.slot == slot
    ensures e.euid == q.euid && e.perm == table[i].perm && e.lease == LeaseEnd(q)
    ensures slot == NO_SLOT || forall j :: 0 <= j < |table| && j != i ==> !Blocks(table[j], slot, addr, q.role, q.now)
    ensures addr == FreeAddr(table, q.euid, 0) && addr != FREE && (addr != 0 ==> !AddrTaken(table, addr))
  {
    addr := FreeAddr(table, q.euid, 0);
    var named := table[i := table[i].(addr := addr, euid := q.euid, role := q.role % 0x100)];
    slot := LeastFree(named, addr, q.role, q.now, 0);
    e := named[i].(slot := slot, lease := LeaseEnd(q));
    assert forall j :: 0 <= j < |table| && j != i ==> named[j] == table[j];
  }

  lemma AdmitKeeps(table: seq<Entry>, i: nat, q: Ask)
    requires i < |table| <= MAX_NODES && table[i].addr == FREE && q.role < 0x100
    requires SlotsApart(table, q.now) && AddrsApart(table)
    ensures SlotsApart(Admit(table, i, q), q.now) && AddrsApart(Admit(table, i, q))
  {
    var addr, slot, e := Admitted(table, i, q);
    forall j | 0 <= j < |table| && j != i && Contend(table[j], e, q.now)
      ensures table[j].slot != e.slot || e.slot == NO_SLOT
    {
      assert table[j].slot == slot ==> Blocks(table[j], slot, addr, q.role, q.now);
    }
    PutFree(table, i, e, q.now);
  }

  /** Admitting the device that asks `q` at the free entry `i` keeps slots apart. */
  ghost predicate AdmitSafe(table: seq<Entry>, i: nat, q: Ask) {
    i < |table| <= MAX_NODES && table[i].addr == FREE && SlotsApart(table, q.now) && AddrsApart(table) ==>
      SlotsApart(Admit(table, i, q), q.now)
  }

  /** An admission keeps slots apart in every table if and only if the role fits the byte that is kept of it. */
  lemma AdmitKeepsIff(q: Ask)
    ensures (forall table, i: nat :: AdmitSafe(table, i, q)) <==> q.role < 0x100
  {
    if q.role < 0x100 {
      forall table: seq<Entry>, i: nat ensures AdmitSafe(table, i, q) {
        if i < |table| <= MAX_NODES && table[i].addr == FREE && SlotsApart(table, q.now) && AddrsApart(table) {
          AdmitKeeps(table, i, q);
        }
      }
    } else {
      var table := WideRoleCollides(q);
      assert !AdmitSafe(table, 1, q);
    }
  }

  /** The search compares two bytes of the role asked for with the one byte of each entry. */
  lemma WideRoleBlocksNothing(table: seq<Entry>, addr: nat, q: Ask)
    requires q.role >= 0x100
    ensures LeastFree(table, addr, q.role, q.now, 0) == 0
  {
    assert !Blocked(table, 0, addr, q.role, q.now);
  }

  lemma WideRoleCollides(q: Ask) returns (table: seq<Entry>)
    requires q.role >= 0x100
    ensures |table| == 2 && !AdmitSafe(table, 1, q)
  {
    var other := Entry(1, 0, 0, q.role % 0x100, true, 0);
    table := [other, Entry(FREE, NO_SLOT, 0, 0, true, 0)];
    var addr := FreeAddr(table, q.euid, 0);
    assert table[0].addr == 1 && table[1].addr == FREE && addr != 1 && addr != FREE;
    var named := table[1 := table[1].(addr := addr, euid := q.euid, role := q.role % 0x100)];
    WideRoleBlocksNothing(named, addr, q);
    var r := Admit(table, 1, q);
    assert r[0] == other && r[1].slot == 0;
    assert Contend(r[0], r[1], q.now);
  }

  /** Two new devices that ask with such a role both get slot 0. */
  lemma WideRolesShareSlot(role: U16)
    requires role >= 0x100
    ensures
      var blank := Entry(FREE, NO_SLOT, 0, 0, false, 0);
      var t1 := Request([blank, blank], Ask(1, role, 0, 0));
      var t2 := Request(t1, Ask(2, role, 0, 0));
      && t2[0] == Entry(1, 0, 1, role % 0x100, false, 0) && t2[1] == Entry(2, 0, 2, role % 0x100, false, 0)
      && SlotsApart(t1, 0) && !SlotsApart(t2, 0)
  {
    var blank := Entry(FREE, NO_SLOT, 0, 0, false, 0);
    var (q1, q2) := (Ask(1, role, 0, 0), Ask(2, role, 0, 0));
    var (e1, e2) := (Entry(1, 0, 1, role % 0x100, false, 0), Entry(2, 0, 2, role % 0x100, false, 0));
    AdmittedWide([blank, blank], 0, q1);
    assert Request([blank, blank], q1) == [e1, blank];
    AdmittedWide([e1, blank], 1, q2);
    assert FindEuid([e1, blank], 2, 0) == 2 && FindFree([e1, blank], 0) == 1;
    assert Request([e1, blank], q2) == [e1, e2];
    assert Contend([e1, e2][0], [e1, e2][1], 0);
  }

  lemma AdmittedWide(table: seq<Entry>, i: nat, q: Ask)
    requires q.role >= 0x100 && q.lease == 0 && q.now == 0 && i < |table| == 2
    requires table[i] == Entry(FREE, NO_SLOT, 0, 0, false, 0)
    requires 0 < q.euid < 0x1000 && !AddrTaken(table, q.euid)
    ensures Admit(table, i, q) == table[i := Entry(q.euid, 0, q.euid, q.role % 0x100, false, 0)]
  {
    assert Candidate(q.euid, 0) == q.euid;
    var named := table[i := table[i].(addr := q.euid, euid := q.euid, role := q.role % 0x100)];
    WideRoleBlocksNothing(named, q.euid, q);
  }

  lemma DeleteKeeps(table: seq<Entry>, i: nat, role: U8, perm: bool, now: nat)
    requires i < |table| && SlotsApart(table, now) && AddrsApart(table)
    ensures SlotsApart(Delete(table, i, role, perm), now) && AddrsApart(Delete(table, i, role, perm))
  {
    PutFree(table, i, Delete(table, i, role, perm)[i], now);
  }

  /** Saving leaves the entry without a claim, or with the claim it had. */
  predicate Harmless(e: Entry, c: Copy, now: nat) {
    || e.addr == FREE || e.slot == NO_SLOT
    || !Live(e.(role := c.role, perm := c.perm), now)
    || (c.role == e.role && Live(e, now))
  }

  lemma SaveKeeps(table: seq<Entry>, c: Copy, now: nat)
    requires SlotsApart(table, now) && (c.index < |table| ==> Harmless(table[c.index], c, now))
    ensures SlotsApart(Save(table, c), now)
  {
    if c.index < |table| {
      var (i, e) := (c.index, Save(table, c)[c.index]);
      forall j | 0 <= j < |table| && j != i && Contend(table[j], e, now)
        ensures table[j].slot != e.slot || e.slot == NO_SLOT
      {
        if e.slot != NO_SLOT { assert Contend(table[j], table[i], now); }
      }
      PutFree(table, i, e, now);
    }
  }

  /** Saving `c` over the entry `e` keeps slots apart in this table. */
  ghost predicate SaveSafe(table: seq<Entry>, e: Entry, c: Copy, now: nat) {
    c.index < |table| <= MAX_NODES && table[c.index] == e && SlotsApart(table, now) && AddrsApart(table) ==>
      SlotsApart(Save(table, c), now)
  }

  /** The deferred save keeps slots apart in every table if and only if it is harmless. */
  lemma SaveKeepsIff(e: Entry, c: Copy, now: nat)
    ensures (forall table :: SaveSafe(table, e, c, now)) <==> Harmless(e, c, now)
  {
    if Harmless(e, c, now) {
      forall table: seq<Entry> ensures SaveSafe(table, e, c, now) {
        if c.index < |table| && table[c.index] == e && SlotsApart(table, now) { SaveKeeps(table, c, now); }
      }
    } else {
      var table := SaveCollides(e, c, now);
      assert !SaveSafe(table, e, c, now);
    }
  }

  lemma SaveCollides(e: Entry, c: Copy, now: nat) returns (table: seq<Entry>)
    requires !Harmless(e, c, now)
    ensures !SaveSafe(table, e, c, now)
  {
    var other := Entry(if e.addr == 1 then 2 else 1, e.slot, 0, c.role, true, 0);
    var k := if c.index == 0 then 1 else 0;
    var unused := seq(c.index + 1 + k, _ => Entry(FREE, NO_SLOT, 0, 0, false, 0));
    table := unused[c.index := e][k := other];
    assert forall j :: 0 <= j < |table| && j != k && j != c.index ==> table[j].addr == FREE;
    var r := Save(table, c);
    assert !Contend(e, other, now);
    assert r[k] == other;
    assert Contend(r[c.index], r[k], now);
  }

  datatype Event =
    | Asks(q: Ask)
    | Deletes(i: nat, role: U8, perm: bool, at: nat)
    | Saves(place: nat, differs: bool, at: nat)

  function TimeOf(e: Event): nat { if e.Asks? then e.q.now else e.at }

  function Apply(m: Master, e: Event): (r: Master)
    ensures |r.table| == |m.table| && |r.queue| == |m.queue|
  {
    match e
    case Asks(q) => OnRequest(m, q)
    case Deletes(i, role, perm, _) => if i < |m.table| then m.(table := Delete(m.table, i, role, perm)) else m
    case Saves(k, differs, _) => OnSave(m, k, differs)
  }

  /** The states that a master goes through. */
  ghost predicate Run(states: seq<Master>, events: seq<Event>) {
    && |states| == |events| + 1
    && forall k :: 0 <= k < |events| ==> states[k + 1] == Apply(states[k], events[k])
  }

  /** There is a run for all events. */
  lemma {:induction false} RunExists(m: Master, events: seq<Event>) returns (states: seq<Master>)
    ensures Run(states, events) && states[0] == m
    decreases |events|
  {
    if events == [] {
      states := [m];
    } else {
      var rest := RunExists(Apply(m, events[0]), events[1..]);
      states := [m] + rest;
      forall k | 0 <= k < |events| ensures states[k + 1] == Apply(states[k], events[k]) {
        if k > 0 { assert events[k] == events[1..][k - 1]; }
      }
    }
  }

  /**
   A known device asks with the role it has, an unknown one with a role of one byte; a record that
   is saved does no harm.
   */
  ghost predicate Steady(m: Master, e: Event) {
    match e
    case Asks(q) =>
      var i := FindEuid(m.table, q.euid, 0);
      if i < |m.table| then m.table[i].role == q.role else q.role < 0x100
    case Deletes(_, _, _, _) => true
    case Saves(k, differs, at) =>
      k < |m.queue| && m.queue[k].taken && differs && m.queue[k].copy.index < |m.table| ==>
        Harmless(m.table[m.queue[k].copy.index], m.queue[k].copy, at)
  }

  /** Times do not decrease and stay below 2^31 ms. */
  ghost predicate InTime(start: nat, events: seq<Event>) {
    && (forall k :: 0 <= k < |events| ==> start <= TimeOf(events[k]) < TWO31)
    && (forall k, l :: 0 <= k < l < |events| ==> TimeOf(events[k]) <= TimeOf(events[l]))
  }

  ghost predicate SteadyRun(states: seq<Master>, events: seq<Event>)
    requires |states| == |events| + 1
  {
    forall k :: 0 <= k < |events| ==> Steady(states[k], events[k])
  }

  lemma StepKeeps(m: Master, e: Event)
    requires |m.table| <= MAX_NODES && SlotsApart(m.table, TimeOf(e)) && AddrsApart(m.table) && Steady(m, e)
    ensures SlotsApart(Apply(m, e).table, TimeOf(e)) && AddrsApart(Apply(m, e).table)
  {
    match e
    case Deletes(i, role, perm, at) => if i < |m.table| { DeleteKeeps(m.table, i, role, perm, at); }
    case Saves(k, differs, at) =>
      if k < |m.queue| && m.queue[k].taken && differs { SaveKeeps(m.table, m.queue[k].copy, at); }
    case Asks(q) => RequestKeeps(m.table, q);
  }

  lemma RequestKeeps(table: seq<Entry>, q: Ask)
    requires |table| <= MAX_NODES && SlotsApart(table, q.now) && AddrsApart(table)
    requires Steady(Master(table, []), Asks(q))
    ensures SlotsApart(Request(table, q), q.now) && AddrsApart(Request(table, q))
  {
    var i := FindEuid(table, q.euid, 0);
    if i < |table| {
      RenewKeeps(table, i, q);
    } else if FindFree(table, 0) < |table| {
      AdmitKeeps(table, FindFree(table, 0), q);
    }
  }

  /**
   At every point of every run of requests, deletions, deferred saves and passing time, live
   devices of one role with different addresses never share a slot, and nonzero short addresses
   stay distinct.
   */
  lemma {:induction false} RunKeepsApart(states: seq<Master>, start: nat, events: seq<Event>, k: nat, now: nat)
    requires Run(states, events) && InTime(start, events) && SteadyRun(states, events) && k <= |events|
    requires |states[0].table| <= MAX_NODES && SlotsApart(states[0].table, start) && AddrsApart(states[0].table)
    requires start <= now < TWO31 && (k > 0 ==> TimeOf(events[k - 1]) <= now)
    ensures |states[k].table| == |states[0].table|
    ensures SlotsApart(states[k].table, now) && AddrsApart(states[k].table)
  {
    if k == 0 {
      SlotsStayApart(states[0].table, start, now);
    } else {
      var e := events[k - 1];
      RunKeepsApart(states, start, events, k - 1, TimeOf(e));
      StepKeeps(states[k - 1], e);
      SlotsStayApart(Apply(states[k - 1], e).table, TimeOf(e), now);
    }
  }

  // ----- Runs in which the deferred save is harmless -----

  /** Every queued record says what its entry says. */
  ghost predicate Matches(m: Master) {
    && (forall k :: 0 <= k < |m.queue| && m.queue[k].taken ==> MatchesEntry(m.table, m.queue[k].copy))
    && (forall i :: 0 <= i < |m.table| ==>
          if m.table[i].addr == FREE then !m.table[i].perm else m.table[i].role < 16)
  }

  ghost predicate MatchesEntry(table: seq<Entry>, c: Copy) {
    && c.index < |table| && table[c.index].addr != FREE
    && table[c.index].role == c.role && table[c.index].perm == c.perm
  }

  /**
   A device asks with a role of four bits, the one it has if it is known, and an unknown one finds
   a free entry; a deletion waits until nothing is queued for the entry, and the record in flash
   is not a permanent one.
   */
  ghost predicate Careful(m: Master, e: Event) {
    match e
    case Asks(q) =>
      && q.role < 16
      && (var i := FindEuid(m.table, q.euid, 0);
          if i < |m.table| then m.table[i].role == q.role else FindFree(m.table, 0) < |m.table|)
    case Deletes(i, _, perm, _) =>
      !perm && forall k :: 0 <= k < |m.queue| && m.queue[k].taken ==> m.queue[k].copy.index != i
    case Saves(_, _, _) => true
  }

  lemma CarefulIsSteady(m: Master, e: Event)
    requires Matches(m) && Careful(m, e)
    ensures Steady(m, e)
  {
    if e.Saves? && e.place < |m.queue| && m.queue[e.place].taken {
      assert MatchesEntry(m.table, m.queue[e.place].copy);
    }
  }

  lemma CarefulKeepsMatches(m: Master, e: Event)
    requires |m.table| <= MAX_NODES && Matches(m) && Careful(m, e)
    ensures Matches(Apply(m, e))
  {
    match e
    case Asks(q) => CarefulAsk(m, q);
    case Deletes(i, role, perm, at) =>
      forall k | 0 <= k < |m.queue| && m.queue[k].taken
        ensures MatchesEntry(Apply(m, e).table, m.queue[k].copy)
      {
        assert MatchesEntry(m.table, m.queue[k].copy);
      }
    case Saves(k, differs, at) =>
      if k < |m.queue| && m.queue[k].taken {
        assert MatchesEntry(m.table, m.queue[k].copy);
        assert Save(m.table, m.queue[k].copy) == m.table;
      }
  }

  lemma CarefulAsk(m: Master, q: Ask)
    requires |m.table| <= MAX_NODES && Matches(m) && Careful(m, Asks(q))
    ensures Matches(OnRequest(m, q))
  {
    var k := FirstEmpty(m.queue, 0);
    if k < |m.queue| {
      var t := Request(m.table, q);
      CarefulRequest(m.table, q, m.queue[k].copy);
      forall l | 0 <= l < |m.queue| && m.queue[l].taken ensures MatchesEntry(t, m.queue[l].copy) {
        assert MatchesEntry(m.table, m.queue[l].copy);
      }
    }
  }

  /** The entry asked for ends up as its record; other entries, and its own role and permanence if it was used, stay. */
  lemma CarefulRequest(table: seq<Entry>, q: Ask, was: Copy)
    requires |table| <= MAX_NODES && Matches(Master(table, [])) && Careful(Master(table, []), Asks(q))
    ensures var (t, c) := (Request(table, q), Queued(table, q, was)); MatchesEntry(t, c) && Matches(Master(t, []))
    ensures forall c :: MatchesEntry(table, c) ==> MatchesEntry(Request(table, q), c)
  {
    if FindEuid(table, q.euid, 0) < |table| {
      CarefulRenewal(table, q, was);
    } else {
      CarefulAdmission(table, q, was);
    }
  }

  lemma CarefulRenewal(table: seq<Entry>, q: Ask, was: Copy)
    requires |table| <= MAX_NODES && Matches(Master(table, [])) && Careful(Master(table, []), Asks(q))
    requires FindEuid(table, q.euid, 0) < |table|
    ensures var (t, c) := (Request(table, q), Queued(table, q, was)); MatchesEntry(t, c) && Matches(Master(t, []))
    ensures forall c :: MatchesEntry(table, c) ==> MatchesEntry(Request(table, q), c)
  {
    var i := FindEuid(table, q.euid, 0);
    var slot, e := Renewed(table, i, q);
    QueuedSame(table, q, i, was);
    EntryPut(table, i, e, Copy(i, q.role, table[i].perm));
  }

  lemma CarefulAdmission(table: seq<Entry>, q: Ask, was: Copy)
    requires |table| <= MAX_NODES && Matches(Master(table, [])) && Careful(Master(table, []), Asks(q))
    requires FindEuid(table, q.euid, 0) == |table|
    ensures var (t, c) := (Request(table, q), Queued(table, q, was)); MatchesEntry(t, c) && Matches(Master(t, []))
    ensures forall c :: MatchesEntry(table, c) ==> MatchesEntry(Request(table, q), c)
  {
    var i := FindFree(table, 0);
    var addr, slot, e := Admitted(table, i, q);
    QueuedNew(table, q, i, was);
    EntryPut(table, i, e, Copy(i, q.role, false));
  }

  lemma QueuedSame(table: seq<Entry>, q: Ask, i: nat, was: Copy)
    requires |table| <= MAX_NODES && i == FindEuid(table, q.euid, 0) < |table| && table[i].role == q.role < 16
    ensures Queued(table, q, was) == Copy(i, q.role, table[i].perm)
  {}

  lemma QueuedNew(table: seq<Entry>, q: Ask, i: nat, was: Copy)
    requires |table| <= MAX_NODES && FindEuid(table, q.euid, 0) == |table| && i == FindFree(table, 0) < |table|
    requires q.role < 16
    ensures Queued(table, q, was) == Copy(i, q.role, false)
  {}

  /** An entry that is new, or keeps its role and permanence, and says what its record says. */
  lemma EntryPut(table: seq<Entry>, i: nat, e: Entry, c: Copy)
    requires Matches(Master(table, [])) && i < |table| && c.index == i && e.addr != FREE
    requires e.role == c.role < 16 && e.perm == c.perm
    requires table[i].addr == FREE || (e.role == table[i].role && e.perm == table[i].perm)
    ensures MatchesEntry(table[i := e], c) && Matches(Master(table[i := e], []))
    ensures forall d :: MatchesEntry(table, d) ==> MatchesEntry(table[i := e], d)
  {}

  /** In a run of careful steps every deferred save is harmless. */
  lemma {:induction false} CarefulRunIsSteady(states: seq<Master>, events: seq<Event>, k: nat)
    requires Run(states, events) && |states[0].table| <= MAX_NODES && Matches(states[0]) && k <= |events|
    requires forall j :: 0 <= j < |events| ==> Careful(states[j], events[j])
    ensures |states[k].table| == |states[0].table| && Matches(states[k])
    ensures forall j :: 0 <= j < k ==> Steady(states[j], events[j])
  {
    if k == 0 {
    } else {
      CarefulRunIsSteady(states, events, k - 1);
      CarefulIsSteady(states[k - 1], events[k - 1]);
      CarefulKeepsMatches(states[k - 1], events[k - 1]);
    }
  }

  /**
   Without those precautions: an unknown device that finds the table full leaves a blank record,
   and saving it resets the role of the first entry, which then shares its slot.
   */
  lemma FullTableCollides()
    ensures
      var m := Master([Entry(1, 0, 10, 1, false, 0), Entry(2, 0, 20, 0, false, 0)], [EMPTY]);
      var m1 := Apply(m, Asks(Ask(30, 1, 0, 0)));
      var m2 := Apply(m1, Saves(0, true, 0));
      && SlotsApart(m.table, 0) && AddrsApart(m.table) && m1.table == m.table
      && m2.table[0] == m.table[0].(role := 0) && !SlotsApart(m2.table, 0)
  {
    var m := Master([Entry(1, 0, 10, 1, false, 0), Entry(2, 0, 20, 0, false, 0)], [EMPTY]);
    assert FindEuid(m.table, 30, 0) == 2 && FindFree(m.table, 0) == 2 && FirstEmpty(m.queue, 0) == 0;
    var m2 := Apply(Apply(m, Asks(Ask(30, 1, 0, 0))), Saves(0, true, 0));
    assert Contend(m2.table[0], m2.table[1], 0);
  }

  /** The entry of a known device without a permanent slot once its record is saved. */
  function Moved(e: Entry, slot: nat, q: Ask): Entry
    requires q.role < 0x100
  {
    e.(slot := slot, lease := LeaseEnd(q), role := q.role, perm := false)
  }

  lemma RenewedAndSaved(table: seq<Entry>, q: Ask, i: nat, was: Copy)
    requires |table| <= MAX_NODES && i == FindEuid(table, q.euid, 0) < |table|
    requires !table[i].perm && table[i].role < 16 && 0 < q.role < 16
    ensures Save(Request(table, q), Queued(table, q, was))
         == table[i := Moved(table[i], LeastFree(table, table[i].addr, q.role, q.now, 0), q)]
  {
    var slot, e := Renewed(table, i, q);
    QueuedChange(table, q, i, was);
    SavedOver(table, e, Copy(i, q.role, false));
  }

  lemma QueuedChange(table: seq<Entry>, q: Ask, i: nat, was: Copy)
    requires |table| <= MAX_NODES && i == FindEuid(table, q.euid, 0) < |table|
    requires !table[i].perm && table[i].role < 16 && 0 < q.role < 16
    ensures Queued(table, q, was) == Copy(i, q.role, false)
  {}

  lemma SavedOver(table: seq<Entry>, e: Entry, c: Copy)
    requires c.index < |table|
    ensures Save(table[c.index := e], c) == table[c.index := e.(role := c.role, perm := c.perm)]
  {}

  /** A device without a permanent slot may change its role if its record is saved before anything else happens. */
  lemma RenewAndSaveKeeps(table: seq<Entry>, q: Ask, was: Copy)
    requires |table| <= MAX_NODES && SlotsApart(table, q.now) && AddrsApart(table) && 0 < q.role < 16
    requires var i := FindEuid(table, q.euid, 0); i < |table| && !table[i].perm && table[i].role < 16
    ensures SlotsApart(Save(Request(table, q), Queued(table, q, was)), q.now)
  {
    var i := FindEuid(table, q.euid, 0);
    var slot := LeastFree(table, table[i].addr, q.role, q.now, 0);
    RenewedAndSaved(table, q, i, was);
    MovedKeeps(table, i, slot, q);
  }

  lemma MovedKeeps(table: seq<Entry>, i: nat, slot: nat, q: Ask)
    requires i < |table| && SlotsApart(table, q.now) && q.role < 0x100
    requires slot == NO_SLOT || !Blocked(table, slot, table[i].addr, q.role, q.now)
    ensures SlotsApart(table[i := Moved(table[i], slot, q)], q.now)
  {
    var e := Moved(table[i], slot, q);
    forall j | 0 <= j < |table| && j != i && Contend(table[j], e, q.now)
      ensures table[j].slot != slot || slot == NO_SLOT
    {
      assert table[j].slot == slot ==> Blocks(table[j], slot, table[i].addr, q.role, q.now);
    }
    PutFree(table, i, e, q.now);
  }

  // ----- Leases -----

  /** The entry of the device that asks, once it has been served. */
  function PlaceOf(table: seq<Entry>, q: Ask): nat {
    var i := FindEuid(table, q.euid, 0);
    if i < |table| then i else FindFree(table, 0)
  }

  /** A request finds a place exactly if some entry is free or the device's own. */
  lemma HasPlaceIff(table: seq<Entry>, q: Ask)
    ensures HasPlace(table, q)
            <==> exists i :: 0 <= i < |table| && (table[i].addr == FREE || table[i].euid == q.euid)
  {}

  /** A deleted device is unknown, blocks no slot and leaves its entry to anyone who asks; all others stay. */
  lemma DeletedIsGone(table: seq<Entry>, i: nat, role: U8, perm: bool, q: Ask, slot: nat, addr: nat)
    requires i < |table| && table[i].addr != FREE
    requires forall j :: 0 <= j < |table| && j != i && table[j].addr != FREE ==> table[j].euid != table[i].euid
    ensures
      var r := Delete(table, i, role, perm);
      && FindEuid(r, table[i].euid, 0) == |r| == |table| && HasPlace(r, q) && !Blocks(r[i], slot, addr, q.role, q.now)
      && r[i] == Entry(0xffff, 0xffff, 0xffff_ffff_ffff_ffff, role, perm, table[i].lease)
      && forall j :: 0 <= j < |table| && j != i ==> r[j] == table[j]
  {
    var r := Delete(table, i, role, perm);
    assert r[i].addr == FREE;
  }

  /**
   The record that a request queues has the device's place and four bits of the role asked for; a known
   device that asks with role 0 keeps the bits it has, and its permanence.  Without a place nothing is queued.
   */
  lemma QueuedRole(table: seq<Entry>, q: Ask, was: Copy)
    ensures
      var (c, i) := (Queued(table, q, was), PlaceOf(table, q));
      && (HasPlace(table, q) ==>
            && i < |table| && c.index == i % 0x100 && c.role < 0x10
            && (table[i].addr == FREE ==> (q.role - c.role) % 0x10 == 0 && !c.perm)
            && (table[i].addr != FREE ==>
                  ((if q.role == 0 then table[i].role else q.role) - c.role) % 0x10 == 0 && c.perm == table[i].perm))
      && (!HasPlace(table, q) ==> c == was)
  {}

  /** The place `j` of the queue writes entry `i`. */
  ghost predicate Writes(queue: seq<Place>, differs: seq<bool>, i: nat, j: nat)
    requires |differs| == |queue|
  {
    j < |queue| && queue[j].taken && differs[j] && queue[j].copy.index == i
  }

  /**
   After the deferred saves no place is taken, and every entry has the role and the permanence of the
   last queued record for it that differed from the one in flash; nothing else has changed.
   */
  lemma {:induction false} PostprocessEffect(m: Master, k: nat, differs: seq<bool>, i: nat, j: nat)
    requires |differs| == |m.queue| && k <= |m.queue| && i < |m.table|
    ensures
      var r := OnPostprocess(m, k, differs);
      && |r.table| == |m.table| && |r.queue| == |m.queue|
      && (forall l :: 0 <= l < |m.queue| ==>
            r.queue[l] == if l >= k && m.queue[l].taken then Place(false, Copy(0, 0, false)) else m.queue[l])
      && (k <= j && Writes(m.queue, differs, i, j)
          && (forall l :: j < l < |m.queue| ==> !Writes(m.queue, differs, i, l))
          ==> r.table[i] == m.table[i].(role := m.queue[j].copy.role, perm := m.queue[j].copy.perm))
      && ((forall l :: k <= l < |m.queue| ==> !Writes(m.queue, differs, i, l)) ==> r.table[i] == m.table[i])
    decreases |m.queue| - k
  {
    if k < |m.queue| {
      var n := OnSave(m, k, differs[k]);
      PostprocessEffect(n, k + 1, differs, i, j);
      LaterWritesStay(m, n, k, differs, i);
      if forall l :: k <= l < |m.queue| ==> !Writes(m.queue, differs, i, l) {
        assert !Writes(m.queue, differs, i, k);
        assert n.table[i] == m.table[i];
      }
    }
  }

  lemma LaterWritesStay(m: Master, n: Master, k: nat, differs: seq<bool>, i: nat)
    requires |differs| == |m.queue| && k < |m.queue| && n == OnSave(m, k, differs[k])
    ensures |n.queue| == |m.queue| && forall l :: k < l < |m.queue| ==> n.queue[l] == m.queue[l]
    ensures forall l :: k < l < |m.queue| ==> (Writes(n.queue, differs, i, l) <==> Writes(m.queue, differs, i, l))
  {}

  /** How often the signed counter has wrapped. */
  function Turn(t: nat): nat { (t + TWO31) / TWO32 }

  lemma SignedTime(t: nat)
    ensures Signed32(t) == t - TWO32 * Turn(t) && -TWO31 <= Signed32(t) < TWO31
  {}

  lemma LeaseEndTime(q: Ask)
    ensures Signed32(LeaseEnd(q)) == Signed32(q.now + 1000 * q.lease)
    ensures LeaseEnd(q) % TWO32 == 0 <==> (q.now + 1000 * q.lease) % TWO32 == 0
  {}

  /** Both times are on the same turn of the counter: then they compare as they are. */
  lemma SameTurn(t: nat, end: nat)
    requires Turn(t) == Turn(end)
    ensures Signed32(t) > Signed32(end) <==> t > end
  {
    SignedTime(t);
    SignedTime(end);
  }

  /** A time from `now` to `end` at which the signed comparison takes the lease for expired. */
  lemma EarlyExpiry(now: nat, end: nat) returns (t: nat)
    requires now <= end && Turn(now) != Turn(end) && Signed32(end) != TWO31 - 1
    ensures now <= t <= end && Signed32(t) > Signed32(end)
  {
    t := TWO32 * Turn(end) - TWO31 - 1;
    SignedTime(now);
    SignedTime(end);
    SignedTime(t);
    assert Turn(now) < Turn(end) && Turn(t) == Turn(end) - 1;
  }

  ghost predicate Honoured(e: Entry, now: nat, end: nat) { forall t: nat :: now <= t <= end ==> Live(e, t) }

  /**
   For all times: a lease that is not permanent is honoured from the request to its end if and only if
   the signed millisecond counter does not wrap in between, or the end reads as none or as the last
   instant before a wrap.  On the turn on which it ends, it is over after its end.
   */
  lemma LeaseHonouredIff(q: Ask, e: Entry)
    requires e.lease == LeaseEnd(q) && !e.perm
    ensures
      var end := q.now + 1000 * q.lease;
      && (Honoured(e, q.now, end)
          <==> Turn(q.now) == Turn(end) || end % TWO32 == 0 || end % TWO32 == TWO31 - 1)
      && forall t: nat :: t > end && Turn(t) == Turn(end) && end % TWO32 != 0 ==> !Live(e, t)
  {
    var end := q.now + 1000 * q.lease;
    LeaseEndTime(q);
    SignedTime(end);
    forall t: nat | Turn(t) == Turn(end) ensures Signed32(t) > Signed32(end) <==> t > end { SameTurn(t, end); }
    if Turn(q.now) == Turn(end) {
      forall t: nat | q.now <= t <= end ensures Live(e, t) { assert Turn(t) == Turn(end); }
    } else if end % TWO32 == TWO31 - 1 {
      forall t: nat | q.now <= t <= end ensures Live(e, t) { SignedTime(t); }
    } else if end % TWO32 != 0 {
      var t := EarlyExpiry(q.now, end);
      assert !Live(e, t);
    }
  }

  /** The times of a lease, in milliseconds: before 2^31 ms the wrapping counters do not matter. */
  lemma LeaseEndsAfter(q: Ask, e: Entry, t: nat)
    requires q.now + 1000 * q.lease < TWO31 && t < TWO31 && e.lease == LeaseEnd(q)
    ensures Live(e, t) <==> e.perm || q.now + 1000 * q.lease == 0 || t <= q.now + 1000 * q.lease
  {}

  lemma ServedEntry(table: seq<Entry>, q: Ask)
    requires |table| <= MAX_NODES && HasPlace(table, q)
    ensures
      var (i, r) := (PlaceOf(table, q), Request(table, q));
      && i < |r| == |table| && r[i].euid == q.euid && r[i].lease == LeaseEnd(q)
      && r[i].addr != FREE && r[i].perm == table[i].perm
  {
    var i := PlaceOf(table, q);
    if FindEuid(table, q.euid, 0) == |table| {
      ServedNew(table, i, q);
    }
  }

  lemma ServedNew(table: seq<Entry>, i: nat, q: Ask)
    requires i < |table| <= MAX_NODES && table[i].addr == FREE
    ensures var e := Admit(table, i, q)[i];
            e.euid == q.euid && e.lease == LeaseEnd(q) && e.addr != FREE && e.perm == table[i].perm
  {
    assert AddrTaken(table, FREE);
  }

  /**
   A device that was served holds its entry for as many seconds as it asked for, and no longer
   unless its slot is permanent (or the lease ends at 0, which counts as none).
   */
  lemma LeaseRuns(table: seq<Entry>, q: Ask, t: nat)
    requires |table| <= MAX_NODES && HasPlace(table, q) && q.now + 1000 * q.lease < TWO31 && t < TWO31
    ensures
      var e := Request(table, q)[PlaceOf(table, q)];
      && e.euid == q.euid && e.addr != FREE
      && (t <= q.now + 1000 * q.lease ==> Live(e, t))
      && (t > q.now + 1000 * q.lease && !e.perm && q.now + q.lease > 0 ==> !Live(e, t))
  {
    ServedEntry(table, q);
    LeaseEndsAfter(q, Request(table, q)[PlaceOf(table, q)], t);
  }

  /** In every table that still has the entry, nobody else of its role is given its slot while it is live. */
  lemma LiveKeepsSlot(table: seq<Entry>, i: nat, addr: nat, t: nat)
    requires i < |table| && table[i].addr != FREE && addr != table[i].addr && Live(table[i], t)
    ensures var s := LeastFree(table, addr, table[i].role, t, 0); s != table[i].slot || s == NO_SLOT
  {
    var e := table[i];
    assert Blocks(e, e.slot, addr, e.role, t);
  }

  /** Afterwards its slot, or a lower one, goes to the next who asks, unless others hold them. */
  lemma ExpiredGivesSlot(table: seq<Entry>, i: nat, addr: nat, t: nat)
    requires i < |table| && table[i].slot < NO_SLOT && !Live(table[i], t)
    requires forall j :: 0 <= j < |table| && j != i ==> !Blocks(table[j], table[i].slot, addr, table[i].role, t)
    ensures LeastFree(table, addr, table[i].role, t, 0) <= table[i].slot
  {
    assert !Blocked(table, table[i].slot, addr, table[i].role, t);
  }

  /** From request to expiry, in whatever later table still has the entry. */
  lemma LeaseKeepsSlot(table: seq<Entry>, q: Ask, later: seq<Entry>, i: nat, addr: nat, t: nat)
    requires |table| <= MAX_NODES && HasPlace(table, q) && q.now + 1000 * q.lease < TWO31 && t < TWO31
    requires i < |later| && later[i] == Request(table, q)[PlaceOf(table, q)] && addr != later[i].addr
    ensures
      var s := LeastFree(later, addr, later[i].role, t, 0);
      && (t <= q.now + 1000 * q.lease ==> s != later[i].slot || s == NO_SLOT)
      && (t > q.now + 1000 * q.lease && !later[i].perm && q.now + q.lease > 0 && later[i].slot < NO_SLOT
          && (forall j :: 0 <= j < |later| && j != i ==> !Blocks(later[j], later[i].slot, addr, later[i].role, t))
          ==> s <= later[i].slot)
  {
    LeaseRuns(table, q, t);
    if t <= q.now + 1000 * q.lease {
      LiveKeepsSlot(later, i, addr, t);
    } else if !later[i].perm && q.now + q.lease > 0 && later[i].slot < NO_SLOT
           && (forall j :: 0 <= j < |later| && j != i ==>
                 !Blocks(later[j], later[i].slot, addr, later[i].role, t))
    {
      ExpiredGivesSlot(later, i, addr, t);
    }
  }

  // ----- When addresses run out -----

  /** After the identifier's own low half, candidates keep its low 12 bits and number the top four. */
  lemma CandidateShape(euid: nat, i: nat)
    ensures Candidate(euid, i) < 0x1_0000 && Candidate(euid, i) % 0x1000 == euid % 0x1000
    ensures i > 0 ==> Candidate(euid, i) / 0x1000 == i % 16
    ensures i == 0 ==> Candidate(euid, i) == euid % 0x1_0000
  {
    TopFour(i / 16, i % 16);
    LowTwelve(euid / 0x1_0000, euid % 0x1_0000);
  }

  lemma TopFour(q: nat, r: nat)
    requires r < 16
    ensures (16 * q + r) * 0x1000 % 0x1_0000 == r * 0x1000
  {}

  lemma LowTwelve(q: nat, r: nat)
    requires r < 0x1_0000
    ensures (0x1_0000 * q + r) % 0x1000 == r % 0x1000
  {
  }

  /** Entries with the candidates 1 to `k`. */
  lemma {:induction false} HoldersOf(table: seq<Entry>, euid: nat, k: nat) returns (used: set<nat>)
    requires k < 16 && forall c :: 1 <= c <= k ==> AddrTaken(table, Candidate(euid, c))
    ensures |used| == k
    ensures forall j <- used :: j < |table| && table[j].addr % 0x1000 == euid % 0x1000 && table[j].addr < 0x1_0000
    ensures forall j <- used :: table[j].addr / 0x1000 <= k
    decreases k
  {
    if k == 0 {
      used := {};
    } else {
      used := HoldersOf(table, euid, k - 1);
      assert AddrTaken(table, Candidate(euid, k));
      var j :| 0 <= j < |table| && table[j].addr == Candidate(euid, k);
      CandidateShape(euid, k);
      used := used + {j};
    }
  }

  /** No address is found only if a whole family of up to fifteen addresses with the same low 12 bits is in use. */
  lemma AddressesRunOut(table: seq<Entry>, euid: nat) returns (used: set<nat>)
    requires table != [] && FreeAddr(table, euid, 0) == 0
    ensures |used| == (if |table| < 16 then |table| - 1 else 15)
    ensures forall j <- used :: j < |table| && table[j].addr % 0x1000 == euid % 0x1000
  {
    var k := if |table| < 16 then |table| - 1 else 15;
    forall c | 1 <= c <= k ensures AddrTaken(table, Candidate(euid, c)) {
      CandidateShape(euid, c);
    }
    used := HoldersOf(table, euid, k);
  }

  // ----- Why the role must not change -----

  /** Renewing with role `asked` the device at `i`, whose entry has role `held`, keeps slots apart. */
  ghost predicate RenewSafe(table: seq<Entry>, i: nat, q: Ask, held: U8, asked: U16) {
    (&& i < |table| <= MAX_NODES && table[i].addr != FREE && table[i].role == held && q.role == asked
     && SlotsApart(table, q.now) && AddrsApart(table))
    ==> SlotsApart(Renew(table, i, q), q.now)
  }

  /** The search looks at devices of the role asked for, but the entry keeps the role it has. */
  lemma RoleChangeCollides(held: U8, asked: U16)
    requires held != asked
    ensures
      var table := [Entry(1, 0, 10, held, false, 0), Entry(2, 1, 20, held, false, 0)];
      !RenewSafe(table, 1, Ask(20, asked, 0, 0), held, asked)
  {
    var a, b := Entry(1, 0, 10, held, false, 0), Entry(2, 1, 20, held, false, 0);
    var table := [a, b];
    var q := Ask(20, asked, 0, 0);
    assert !Blocked(table, 0, 2, asked, 0);
    var r := Renew(table, 1, q);
    assert r[0] == a && r[1] == b.(slot := 0, lease := 0);
    assert Contend(r[0], r[1], 0);
  }

  /** In every table at every time, if and only if the role is the same. */
  lemma RoleMustBeFixedIff(held: U8, asked: U16)
    ensures (forall table, i: nat, q :: RenewSafe(table, i, q, held, asked)) <==> held == asked
  {
    if held == asked {
      forall table: seq<Entry>, i: nat, q: Ask ensures RenewSafe(table, i, q, held, asked) {
        if i < |table| <= MAX_NODES && table[i].addr != FREE && table[i].role == held && q.role == asked
           && SlotsApart(table, q.now) && AddrsApart(table)
        {
          RenewKeeps(table, i, q);
        }
      }
    } else {
      RoleChangeCollides(held, asked);
    }
  }
}
