/**
 The PAN master's node log in flash (lib/panmaster/src/panmaster_fcb.c): an append-only log in
 sectors, looked up by its last matching record, compressed by dropping the oldest sector, and
 rewritten in sorted order.  Flash operations succeed.
 */
module PanLog {
  import Alloc = PanAllocator
  import opened Common

  const FREE := 0xffff

  /** `struct panmaster_node`. */
  datatype Node = Node(index: U8, addr: nat, euid: nat, role: U8, perm: bool, slot: nat, seen: int, version: nat)

  // ----- Lookup -----

  /** All records, oldest first. */
  function Flat(sectors: seq<seq<Node>>): seq<Node> {
    if sectors == [] then [] else sectors[0] + Flat(sectors[1..])
  }

  predicate Has(log: seq<Node>, euid: nat) { exists i :: 0 <= i < |log| && log[i].euid == euid }

  /** `panm_fcb_find_node` by device: the last matching record wins. */
  function Lookup(log: seq<Node>, euid: nat): (r: Option<Node>)
    ensures r.Some? <==> Has(log, euid)
    ensures r.Some? ==> r.value.euid == euid && r.value in log
  {
    if log == [] then None
    else if log[|log| - 1].euid == euid then Some(log[|log| - 1])
    else Lookup(log[..|log| - 1], euid)
  }

  /** The first matching record. */
  function First(log: seq<Node>, euid: nat): (r: Option<Node>)
    ensures r.Some? <==> Has(log, euid)
  {
    if log == [] then None else if log[0].euid == euid then Some(log[0])
    else
      var r := First(log[1..], euid);
      assert forall i :: 1 <= i < |log| ==> log[i] == log[1..][i - 1];
      r
  }

  lemma HasConcat(a: seq<Node>, b: seq<Node>, euid: nat)
    ensures Has(a + b, euid) <==> Has(a, euid) || Has(b, euid)
  {
    if Has(a, euid) {
      var i :| 0 <= i < |a| && a[i].euid == euid;
      assert (a + b)[i].euid == euid;
    }
    if Has(b, euid) {
      var i :| 0 <= i < |b| && b[i].euid == euid;
      assert (a + b)[|a| + i].euid == euid;
    }
  }

  lemma {:induction false} LookupConcat(a: seq<Node>, b: seq<Node>, euid: nat)
    ensures Lookup(a + b, euid) == if Has(b, euid) then Lookup(b, euid) else Lookup(a, euid)
    decreases |b|
  {
    if b == [] {
      assert a + b == a;
    } else {
      var (front, last) := (b[..|b| - 1], b[|b| - 1]);
      assert (a + b)[..|a + b| - 1] == a + front;
      assert b == front + [last];
      HasConcat(front, [last], euid);
      LookupConcat(a, front, euid);
    }
  }

  // ----- Compressing -----

  /** The records of the oldest sector that are copied: those whose device is neither in the rest nor copied yet. */
  function Copied(oldest: seq<Node>, rest: seq<Node>): seq<Node> {
    if oldest == [] then []
    else
      var before := Copied(oldest[..|oldest| - 1], rest);
      var r := oldest[|oldest| - 1];
      if Has(rest, r.euid) || Has(before, r.euid) then before else before + [r]
  }

  /** The sectors after compressing: the oldest one is dropped, its copies stand in a new one. */
  function Compressed(sectors: seq<seq<Node>>): (r: seq<seq<Node>>)
    requires sectors != []
    ensures |r| == |sectors|
  {
    sectors[1..] + [Copied(sectors[0], Flat(sectors[1..]))]
  }

  function CompressedTimes(sectors: seq<seq<Node>>, n: nat): (r: seq<seq<Node>>)
    requires sectors != []
    ensures |r| == |sectors|
  {
    if n == 0 then sectors else Compressed(CompressedTimes(sectors, n - 1))
  }

  /** After `n` compressions the oldest `n` sectors are gone, the others have moved up, each unchanged. */
  lemma {:induction false} OldestGo(sectors: seq<seq<Node>>, n: nat)
    requires sectors != [] && n <= |sectors|
    ensures CompressedTimes(sectors, n)[..|sectors| - n] == sectors[n..]
  {
    if n > 0 {
      OldestGo(sectors, n - 1);
      var before := CompressedTimes(sectors, n - 1);
      assert Compressed(before)[..|sectors| - n] == before[1..][..|sectors| - n]
          == before[..|sectors| - n + 1][1..];
    }
  }

  const MAX_TRIES := 10

  /** The log of an FCB area: sectors from the oldest to the active one. */
  class Fcb {
    var sectors: seq<seq<Node>>

    constructor ()
      ensures sectors == [[]]
    {
      sectors := [[]];
    }

    method Append(r: Node)
      requires sectors != []
      modifies this
      ensures sectors == old(sectors)[..|old(sectors)| - 1] + [old(sectors)[|old(sectors)| - 1] + [r]]
      ensures Flat(sectors) == Flat(old(sectors)) + [r]
    {
      var k := |sectors| - 1;
      FlatGrow(sectors[..k], sectors[k], r);
      assert sectors == sectors[..k] + [sectors[k]];
      sectors := sectors[..k] + [sectors[k] + [r]];
    }

    /** Is there a record for this device outside the oldest sector? */
    method Newer(euid: nat) returns (found: bool)
      requires sectors != []
      ensures found == Has(Flat(sectors[1..]), euid)
    {
      var s := 1;
      assert Flat(sectors[|sectors|..]) == [];
      while s < |sectors|
        invariant 1 <= s <= |sectors| && (Has(Flat(sectors[1..]), euid) <==> Has(Flat(sectors[s..]), euid))
      {
        assert sectors[s..][0] == sectors[s] && sectors[s..][1..] == sectors[s + 1..];
        HasConcat(sectors[s], Flat(sectors[s + 1..]), euid);
        var i := 0;
        while i < |sectors[s]|
          invariant 0 <= i <= |sectors[s]| && forall k :: 0 <= k < i ==> sectors[s][k].euid != euid
        {
          if sectors[s][i].euid == euid { return true; }
          i := i + 1;
        }
        s := s + 1;
      }
      found := false;
    }

    /** `panm_fcb_compress`. */
    method Compress()
      requires sectors != []
      modifies this
      ensures sectors == Compressed(old(sectors))
    {
      ghost var oldest, rest := sectors[0], sectors[1..];
      sectors := sectors + [[]];
      var i := 0;
      while i < |sectors[0]|
        invariant 0 <= i <= |oldest|
        invariant sectors == [oldest] + rest + [Copied(oldest[..i], Flat(rest))]
      {
        var r := sectors[0][i];
        ghost var copied := Copied(oldest[..i], Flat(rest));
        assert sectors[1..] == rest + [copied];
        FlatLast(rest, copied);
        HasConcat(Flat(rest), copied, r.euid);
        assert oldest[..i + 1][..i] == oldest[..i];
        var newer := Newer(r.euid);
        if !newer {
          Append(r);
        }
        i := i + 1;
      }
      assert oldest[..i] == oldest;
      sectors := sectors[1..];
    }

    /**
     `panm_fcb_append`: while the area has no room for the record, which happens `fullFor` times in
     a row, the log is compressed; after ten tries the record is given up.
     */
    method Save(r: Node, fullFor: nat) returns (ok: bool)
      requires sectors != []
      modifies this
      ensures sectors != [] && ok == (fullFor < MAX_TRIES)
      ensures ok ==> Flat(sectors) == Flat(CompressedTimes(old(sectors), fullFor)) + [r]
      ensures !ok ==> sectors == CompressedTimes(old(sectors), MAX_TRIES)
    {
      var i := 0;
      while i < MAX_TRIES && i < fullFor
        invariant 0 <= i <= MAX_TRIES && i <= fullFor && sectors == CompressedTimes(old(sectors), i)
        invariant sectors != []
      {
        Compress();
        i := i + 1;
      }
      ok := i < MAX_TRIES;
      if ok { Append(r); }
    }

    /** `panm_fcb_load` with the loader of the sort: the last record of every index stays. */
    method Load(nodes: array<Node>)
      modifies nodes
      ensures nodes[..] == Loaded(Flat(sectors), old(nodes[..]))
    {
      var log := Flat(sectors);
      var i := 0;
      while i < |log|
        invariant 0 <= i <= |log| && nodes[..] == Loaded(log[..i], old(nodes[..]))
      {
        assert log[..i + 1][..i] == log[..i];
        if log[i].index < nodes.Length {
          nodes[log[i].index] := log[i];
        }
        i := i + 1;
      }
      assert log[..i] == log;
    }

    /** `panm_fcb_sort` for a table of `n` entries; `blank` is what erased memory looks like. */
    method Sort(n: nat, blank: Node)
      requires n <= Alloc.MAX_NODES
      requires blank.addr == FREE && forall i :: 0 <= i < |Flat(sectors)| ==> Flat(sectors)[i].addr <= FREE
      modifies this
      ensures Ordered(Flat(sectors)) && |Flat(sectors)| <= n
      ensures Bag(Flat(sectors)) == LiveBag(Loaded(Flat(old(sectors)), seq(n, _ => blank)))
    {
      var nodes := new Node[n](_ => blank);
      assert nodes[..] == seq(n, _ => blank);
      Load(nodes);
      LoadedAddrs(Flat(sectors), seq(n, _ => blank));
      assert forall i :: 0 <= i < nodes.Length ==> nodes[i] == nodes[..][i];
      var out := WriteSorted(nodes);
      Rewrite(out);
    }

    /** Clears the area and saves records one by one. */
    method Rewrite(out: seq<Node>)
      modifies this
      ensures sectors != [] && Flat(sectors) == out
    {
      sectors := [[]];
      assert Flat(sectors) == [] by { assert sectors[1..] == []; }
      var i := 0;
      while i < |out|
        invariant 0 <= i <= |out| && sectors != [] && Flat(sectors) == out[..i]
      {
        Append(out[i]);
        i := i + 1;
      }
      assert out[..i] == out;
    }
  }

  lemma {:induction false} LoadedAddrs(log: seq<Node>, blank: seq<Node>)
    requires forall i :: 0 <= i < |log| ==> log[i].addr <= FREE
    requires forall i :: 0 <= i < |blank| ==> blank[i].addr <= FREE
    ensures forall i :: 0 <= i < |blank| ==> Loaded(log, blank)[i].addr <= FREE
  {
    if log == [] {
    } else {
      LoadedAddrs(log[..|log| - 1], blank);
    }
  }

  lemma {:induction false} FlatLast(sectors: seq<seq<Node>>, last: seq<Node>)
    ensures Flat(sectors + [last]) == Flat(sectors) + last
  {
    var all := sectors + [last];
    if sectors == [] {
      assert all[1..] == [] && all[0] == last;
    } else {
      assert all[1..] == sectors[1..] + [last];
      FlatLast(sectors[1..], last);
    }
  }

  lemma FlatGrow(front: seq<seq<Node>>, last: seq<Node>, r: Node)
    ensures Flat(front + [last + [r]]) == Flat(front + [last]) + [r]
  {
    FlatLast(front, last + [r]);
    FlatLast(front, last);
    Associate(Flat(front), last, r);
  }

  lemma Associate(a: seq<Node>, b: seq<Node>, r: Node)
    ensures a + (b + [r]) == (a + b) + [r]
  {}

  /** What `Copied` keeps of a device that is only in the oldest sector: its first record, once. */
  lemma {:induction false} CopiedKeepsFirst(oldest: seq<Node>, rest: seq<Node>, euid: nat)
    ensures Has(rest, euid) ==> !Has(Copied(oldest, rest), euid)
    ensures !Has(rest, euid) ==> Lookup(Copied(oldest, rest), euid) == First(oldest, euid)
    decreases |oldest|
  {
    if oldest == [] {
    } else {
      var k := |oldest| - 1;
      var front, r := oldest[..k], oldest[k];
      CopiedKeepsFirst(front, rest, euid);
      assert oldest == front + [r];
      HasConcat(Copied(front, rest), [r], euid);
      LookupConcat(Copied(front, rest), [r], euid);
      FirstConcat(front, r, euid);
    }
  }

  lemma {:induction false} FirstConcat(front: seq<Node>, r: Node, euid: nat)
    ensures First(front + [r], euid)
         == if Has(front, euid) then First(front, euid) else if r.euid == euid then Some(r) else None
  {
    var all := front + [r];
    if front == [] {
      assert all[1..] == [];
    } else {
      assert all[1..] == front[1..] + [r];
      FirstConcat(front[1..], r, euid);
      HasConcat([front[0]], front[1..], euid);
      assert front == [front[0]] + front[1..];
    }
  }

  /** Compressing loses no device. */
  lemma CompressKeepsDevices(oldest: seq<Node>, rest: seq<Node>, euid: nat)
    ensures Has(rest + Copied(oldest, rest), euid) <==> Has(oldest + rest, euid)
  {
    HasConcat(rest, Copied(oldest, rest), euid);
    HasConcat(oldest, rest, euid);
    CopiedKeepsFirst(oldest, rest, euid);
  }

  /** However often a save has to compress, afterwards the log has the devices it had, and the new record on top. */
  lemma {:induction false} SaveKeepsDevices(sectors: seq<seq<Node>>, n: nat, r: Node, euid: nat)
    requires sectors != []
    ensures Has(Flat(CompressedTimes(sectors, n)), euid) <==> Has(Flat(sectors), euid)
    ensures Lookup(Flat(CompressedTimes(sectors, n)) + [r], r.euid) == Some(r)
  {
    LookupConcat(Flat(CompressedTimes(sectors, n)), [r], r.euid);
    if n == 0 {
    } else {
      SaveKeepsDevices(sectors, n - 1, r, euid);
      var s := CompressedTimes(sectors, n - 1);
      FlatLast(s[1..], Copied(s[0], Flat(s[1..])));
      CompressKeepsDevices(s[0], Flat(s[1..]), euid);
    }
  }

  /**
   Looking a device up gives the same record as before compressing if and only if the device
   has a record outside the oldest sector, or its first record there is also its last: the
   scan skips the oldest sector but sees the copy made a moment ago.
   */
  lemma CompressKeepsLookupIff(oldest: seq<Node>, rest: seq<Node>, euid: nat)
    ensures Lookup(rest + Copied(oldest, rest), euid) == Lookup(oldest + rest, euid)
            <==> Has(rest, euid) || First(oldest, euid) == Lookup(oldest, euid)
  {
    LookupConcat(rest, Copied(oldest, rest), euid);
    LookupConcat(oldest, rest, euid);
    CopiedKeepsFirst(oldest, rest, euid);
  }

  /** With a single record in the oldest sector nothing changes. */
  lemma SingleRecordKept(oldest: seq<Node>, rest: seq<Node>, i: nat)
    requires i < |oldest| && forall k :: 0 <= k < |oldest| && k != i ==> oldest[k].euid != oldest[i].euid
    ensures Lookup(rest + Copied(oldest, rest), oldest[i].euid) == Lookup(oldest + rest, oldest[i].euid)
  {
    OnlyRecord(oldest[..i], oldest[i], oldest[i + 1..]);
    assert oldest == oldest[..i] + [oldest[i]] + oldest[i + 1..];
    CompressKeepsLookupIff(oldest, rest, oldest[i].euid);
  }

  lemma OnlyRecord(a: seq<Node>, r: Node, b: seq<Node>)
    requires !Has(a, r.euid) && !Has(b, r.euid)
    ensures First(a + [r] + b, r.euid) == Some(r) == Lookup(a + [r] + b, r.euid)
  {
    LookupConcat(a + [r], b, r.euid);
    LookupConcat(a, [r], r.euid);
    FirstPrefix(a, [r] + b, r.euid);
    assert a + ([r] + b) == a + [r] + b;
  }

  lemma {:induction false} FirstPrefix(a: seq<Node>, b: seq<Node>, euid: nat)
    requires !Has(a, euid)
    ensures First(a + b, euid) == First(b, euid)
  {
    if a == [] {
      assert a + b == b;
    } else {
      assert (a + b)[1..] == a[1..] + b && a[0].euid != euid;
      FirstPrefix(a[1..], b, euid);
    }
  }

  // ----- Sorting -----

  /** The last record of every index below `n`, as the loader leaves it in memory. */
  function Loaded(log: seq<Node>, blank: seq<Node>): (r: seq<Node>)
    ensures |r| == |blank|
  {
    if log == [] then blank
    else
      var before := Loaded(log[..|log| - 1], blank);
      var r := log[|log| - 1];
      if r.index < |blank| then before[r.index := r] else before
  }

  /** Record `k` is the last one in the log with index `i`. */
  ghost predicate LastAt(log: seq<Node>, i: nat, k: nat) {
    k < |log| && log[k].index == i && forall l :: k < l < |log| ==> log[l].index != i
  }

  /** Every entry is the last record of its index, or blank if there is none. */
  lemma {:induction false} LoadedIsLast(log: seq<Node>, blank: seq<Node>, i: nat)
    requires i < |blank|
    ensures forall k: nat :: LastAt(log, i, k) ==> Loaded(log, blank)[i] == log[k]
    ensures (forall k :: 0 <= k < |log| ==> log[k].index != i) ==> Loaded(log, blank)[i] == blank[i]
    ensures (forall k :: 0 <= k < |log| ==> log[k].index != i) || exists k: nat :: LastAt(log, i, k)
    decreases |log|
  {
    if log == [] {
    } else {
      var last := |log| - 1;
      LoadedIsLast(log[..last], blank, i);
      if log[last].index == i {
        assert LastAt(log, i, last);
      } else {
        LastBefore(log, i);
        assert forall k :: 0 <= k < last ==> log[k] == log[..last][k];
        if k: nat :| LastAt(log[..last], i, k) { assert LastAt(log, i, k); }
      }
    }
  }

  lemma LastBefore(log: seq<Node>, i: nat)
    requires log != [] && log[|log| - 1].index != i
    ensures forall k: nat :: LastAt(log, i, k) <==> LastAt(log[..|log| - 1], i, k)
  {
    var front := log[..|log| - 1];
    forall k: nat ensures LastAt(log, i, k) <==> LastAt(front, i, k) {
      assert forall l :: 0 <= l < |front| ==> front[l] == log[l];
    }
  }

  /** A record without its index. */
  function Strip(r: Node): Node { r.(index := 0) }

  function Bag(log: seq<Node>): multiset<Node> {
    if log == [] then multiset{} else Bag(log[..|log| - 1]) + multiset{Strip(log[|log| - 1])}
  }

  /** The records in use, without their indices. */
  function LiveBag(nodes: seq<Node>): multiset<Node> {
    if nodes == [] then multiset{}
    else LiveBag(nodes[..|nodes| - 1]) + Single(nodes[|nodes| - 1])
  }

  function Single(r: Node): multiset<Node> {
    if r.addr == FREE then multiset{} else multiset{Strip(r)}
  }

  /** Which records of the log are the last of their index, in use, and are `x` but for the index. */
  ghost function Survivors(log: seq<Node>, n: nat, x: Node): set<nat> {
    set k | 0 <= k < |log| && log[k].index < n && LastAt(log, log[k].index, k) && log[k].addr != FREE
            && Strip(log[k]) == x
  }

  /** Which entries in memory are in use and are `x` but for the index. */
  ghost function Entries(nodes: seq<Node>, x: Node): set<nat> {
    set i | 0 <= i < |nodes| && nodes[i].addr != FREE && Strip(nodes[i]) == x
  }

  lemma {:induction false} LiveBagCounts(nodes: seq<Node>, x: Node)
    ensures LiveBag(nodes)[x] == |Entries(nodes, x)|
    decreases |nodes|
  {
    if nodes == [] {
      assert Entries(nodes, x) == {};
    } else {
      var k := |nodes| - 1;
      LiveBagCounts(nodes[..k], x);
      EntriesStep(nodes, x);
    }
  }

  lemma EntriesStep(nodes: seq<Node>, x: Node)
    requires nodes != []
    ensures var k := |nodes| - 1;
            |Entries(nodes, x)| == |Entries(nodes[..k], x)| + Single(nodes[k])[x]
  {
    var k := |nodes| - 1;
    var before := Entries(nodes[..k], x);
    assert k !in before;
    if nodes[k].addr != FREE && Strip(nodes[k]) == x {
      assert Entries(nodes, x) == before + {k};
    } else {
      assert Entries(nodes, x) == before;
    }
  }

  /** As many survivors in the log as entries in memory: their indices are distinct. */
  lemma {:induction false} SameNumber(log: seq<Node>, nodes: seq<Node>, ks: set<nat>, es: set<nat>)
    requires forall k :: k in ks ==> k < |log| && LastAt(log, log[k].index, k) && log[k].index in es
    requires forall i: nat :: i in es ==> exists k: nat :: k in ks && LastAt(log, i, k)
    ensures |ks| == |es|
    decreases ks
  {
    if ks == {} {
      assert forall i: nat :: i !in es;
    } else {
      var k :| k in ks;
      var i := log[k].index;
      forall j: nat | j in es - {i} ensures exists l: nat :: l in ks - {k} && LastAt(log, j, l) {
        var l: nat :| l in ks && LastAt(log, j, l);
        assert l in ks - {k};
      }
      forall l | l in ks - {k} ensures log[l].index in es - {i} {
        assert log[l].index == i ==> l <= k && k <= l;
      }
      SameNumber(log, nodes, ks - {k}, es - {i});
    }
  }

  /** The records in memory are the survivors of the log, each once. */
  lemma LoadedBag(log: seq<Node>, n: nat, blank: Node, x: Node)
    requires blank.addr == FREE
    ensures LiveBag(Loaded(log, seq(n, _ => blank)))[x] == |Survivors(log, n, x)|
  {
    var blanks := seq(n, _ => blank);
    var nodes := Loaded(log, blanks);
    LiveBagCounts(nodes, x);
    var (ks, es) := (Survivors(log, n, x), Entries(nodes, x));
    forall k | k in ks ensures log[k].index in es {
      LoadedIsLast(log, blanks, log[k].index);
    }
    forall i: nat | i in es ensures exists k: nat :: k in ks && LastAt(log, i, k) {
      LoadedIsLast(log, blanks, i);
      if k: nat :| LastAt(log, i, k) {
        assert k in ks;
      }
    }
    SameNumber(log, nodes, ks, es);
  }

  /** Replacing one element of memory changes the bag by that element only. */
  lemma {:induction false} LiveBagUpdate(nodes: seq<Node>, i: nat, r: Node)
    requires i < |nodes|
    ensures LiveBag(nodes[i := r]) + Single(nodes[i]) == LiveBag(nodes) + Single(r)
  {
    var k := |nodes| - 1;
    var new_ := nodes[i := r];
    if i == k {
      assert new_[..k] == nodes[..k];
    } else {
      assert new_[..k] == nodes[..k][i := r];
      LiveBagUpdate(nodes[..k], i, r);
      Shuffle(LiveBag(new_[..k]), LiveBag(nodes[..k]), Single(nodes[i]), Single(r), Single(nodes[k]));
    }
  }

  lemma Shuffle(a: multiset<Node>, b: multiset<Node>, x: multiset<Node>, y: multiset<Node>, s: multiset<Node>)
    requires a + x == b + y
    ensures (a + s) + x == (b + s) + y
  {
    assert (a + s) + x == (a + x) + s;
    assert (b + s) + y == (b + y) + s;
  }

  lemma {:induction false} LiveBagEmpty(nodes: seq<Node>)
    requires forall i :: 0 <= i < |nodes| ==> nodes[i].addr == FREE
    ensures LiveBag(nodes) == multiset{}
  {
    if nodes == [] {
    } else {
      LiveBagEmpty(nodes[..|nodes| - 1]);
    }
  }

  /** Ascending addresses, consecutive indices from 0, and no free address. */
  ghost predicate Ordered(out: seq<Node>) {
    && (forall j :: 0 <= j < |out| ==> out[j].index == j && out[j].addr < FREE)
    && (forall j, k :: 0 <= j < k < |out| ==> out[j].addr <= out[k].addr)
  }

  /** The entry of lowest address in use, or `nodes.Length`. */
  method Lowest(nodes: array<Node>) returns (at: nat)
    requires forall i :: 0 <= i < nodes.Length ==> nodes[i].addr <= FREE
    ensures at <= nodes.Length
    ensures at == nodes.Length ==> forall i :: 0 <= i < nodes.Length ==> nodes[i].addr == FREE
    ensures at < nodes.Length ==>
              nodes[at].addr < FREE && forall i :: 0 <= i < nodes.Length ==> nodes[at].addr <= nodes[i].addr
  {
    var lowest := FREE;
    at := nodes.Length;
    for i := 0 to nodes.Length
      invariant at <= nodes.Length && lowest <= FREE
      invariant at == nodes.Length ==> lowest == FREE
      invariant at < nodes.Length ==> lowest == nodes[at].addr < FREE
      invariant forall k :: 0 <= k < i ==> lowest <= nodes[k].addr
    {
      if nodes[i].addr != FREE && nodes[i].addr < lowest {
        lowest, at := nodes[i].addr, i;
      }
    }
  }

  /** The written part is in order and below everything still in memory. */
  ghost predicate Sorting(out: seq<Node>, nodes: seq<Node>) {
    && Ordered(out) && Used(nodes) + |out| <= |nodes|
    && (forall i :: 0 <= i < |nodes| ==> nodes[i].addr <= FREE)
    && (forall j, i :: 0 <= j < |out| && 0 <= i < |nodes| ==> out[j].addr <= nodes[i].addr)
  }

  lemma SortStep(out: seq<Node>, nodes: seq<Node>, at: nat)
    requires Sorting(out, nodes) && at < |nodes| && nodes[at].addr < FREE && |out| < Alloc.MAX_NODES
    requires forall i :: 0 <= i < |nodes| ==> nodes[at].addr <= nodes[i].addr
    ensures var r := nodes[at].(index := |out|); Sorting(out + [r], nodes[at := r.(addr := FREE)])
  {
    UsedUpdate(nodes, at, nodes[at].(index := |out|, addr := FREE));
  }

  /** Takes the record of lowest address out of memory, numbered for the log. */
  method TakeLowest(nodes: array<Node>, ghost out: seq<Node>, index: nat) returns (done: bool, r: Node)
    requires Sorting(out, nodes[..]) && |out| == index < nodes.Length <= Alloc.MAX_NODES
    modifies nodes
    ensures done ==> nodes[..] == old(nodes[..]) && forall i :: 0 <= i < nodes.Length ==> nodes[i].addr == FREE
    ensures !done ==> Sorting(out + [r], nodes[..])
    ensures !done ==> Bag(out + [r]) + LiveBag(nodes[..]) == Bag(out) + LiveBag(old(nodes[..]))
  {
    assert forall i :: 0 <= i < nodes.Length ==> nodes[i] == nodes[..][i];
    var at := Lowest(nodes);
    done, r := at == nodes.Length, nodes[0];
    if !done {
      ghost var before := nodes[..];
      r := nodes[at].(index := index);
      nodes[at] := r.(addr := FREE);
      assert nodes[..] == before[at := r.(addr := FREE)];
      WriteOne(out, before, at, index);
      SortStep(out, before, at);
    }
  }

  /** The writing loop of `panm_fcb_sort`: the lowest address in use goes out next. */
  method WriteSorted(nodes: array<Node>) returns (out: seq<Node>)
    requires nodes.Length <= Alloc.MAX_NODES && forall i :: 0 <= i < nodes.Length ==> nodes[i].addr <= FREE
    modifies nodes
    ensures Ordered(out) && Bag(out) == LiveBag(old(nodes[..])) && |out| <= nodes.Length
  {
    out := [];
    var index := 0;
    NothingWritten(nodes[..]);
    ghost var all := LiveBag(nodes[..]);
    while index < nodes.Length
      invariant |out| == index <= nodes.Length && Sorting(out, nodes[..])
      invariant Bag(out) + LiveBag(nodes[..]) == all
    {
      var done, r := TakeLowest(nodes, out, index);
      if done { break; }
      out := out + [r];
      index := index + 1;
    }
    Drained(out, nodes[..]);
  }

  lemma Drained(out: seq<Node>, nodes: seq<Node>)
    requires Sorting(out, nodes) && (|out| == |nodes| || forall i :: 0 <= i < |nodes| ==> nodes[i].addr == FREE)
    ensures Bag(out) + LiveBag(nodes) == Bag(out)
  {
    if |out| == |nodes| { NoneUsed(nodes); }
    LiveBagEmpty(nodes);
  }

  lemma NothingWritten(nodes: seq<Node>)
    requires forall i :: 0 <= i < |nodes| ==> nodes[i].addr <= FREE
    ensures Sorting([], nodes) && Bag([]) + LiveBag(nodes) == LiveBag(nodes)
  {
    UsedBound(nodes);
  }

  /** A record moves from memory to the log. */
  lemma WriteOne(out: seq<Node>, nodes: seq<Node>, at: nat, index: U8)
    requires at < |nodes| && nodes[at].addr != FREE
    ensures
      var r := nodes[at].(index := index);
      Bag(out + [r]) + LiveBag(nodes[at := r.(addr := FREE)]) == Bag(out) + LiveBag(nodes)
  {
    var r := nodes[at].(index := index);
    var gone := r.(addr := FREE);
    LiveBagUpdate(nodes, at, gone);
    assert (out + [r])[..|out|] == out;
    assert Single(gone) == multiset{} && Single(nodes[at]) == multiset{Strip(r)};
    assert Bag(out + [r]) == Bag(out) + Single(nodes[at]);
    Regroup(Bag(out), Single(nodes[at]), LiveBag(nodes[at := gone]));
    assert LiveBag(nodes) + multiset{} == LiveBag(nodes);
  }

  lemma Regroup(a: multiset<Node>, x: multiset<Node>, b: multiset<Node>)
    ensures (a + x) + b == a + (b + x)
  {}

  /** How many entries are in use. */
  ghost function Used(nodes: seq<Node>): nat {
    if nodes == [] then 0 else Used(nodes[..|nodes| - 1]) + if nodes[|nodes| - 1].addr == FREE then 0 else 1
  }

  lemma {:induction false} UsedUpdate(nodes: seq<Node>, i: nat, r: Node)
    requires i < |nodes| && nodes[i].addr != FREE && r.addr == FREE
    ensures Used(nodes[i := r]) == Used(nodes) - 1
  {
    var k := |nodes| - 1;
    var new_ := nodes[i := r];
    if i == k {
      assert new_[..k] == nodes[..k];
    } else {
      assert new_[..k] == nodes[..k][i := r];
      UsedUpdate(nodes[..k], i, r);
    }
  }

  lemma {:induction false} UsedBound(nodes: seq<Node>)
    ensures Used(nodes) <= |nodes|
  {
    if nodes == [] {
    } else {
      UsedBound(nodes[..|nodes| - 1]);
    }
  }

  lemma {:induction false} NoneUsed(nodes: seq<Node>)
    requires Used(nodes) == 0
    ensures forall i :: 0 <= i < |nodes| ==> nodes[i].addr == FREE
  {
    if nodes == [] {
    } else {
      var k := |nodes| - 1;
      NoneUsed(nodes[..k]);
      assert forall i :: 0 <= i < k ==> nodes[i] == nodes[..k][i];
    }
  }

  // ----- Replaying into the table -----

  /** `node_idx_load_cb`: what a record leaves in its table entry. */
  function Restore(e: Alloc.Entry, r: Node): Alloc.Entry {
    var base := e.(addr := r.addr, euid := r.euid, role := r.role, perm := r.perm);
    if r.perm then base.(slot := r.slot, lease := 0) else base
  }

  function Replay(log: seq<Node>, table: seq<Alloc.Entry>): (r: seq<Alloc.Entry>)
    ensures |r| == |table|
  {
    if log == [] then table
    else
      var before := Replay(log[..|log| - 1], table);
      var r := log[|log| - 1];
      if r.index < |table| then before[r.index := Restore(before[r.index], r)] else before
  }

  /** The loader over a whole log. */
  method LoadTable(log: seq<Node>, table: array<Alloc.Entry>)
    requires forall i :: 0 <= i < |log| ==> log[i].index != table.Length
    modifies table
    ensures table[..] == Replay(log, old(table[..]))
  {
    var i := 0;
    while i < |log|
      invariant 0 <= i <= |log| && table[..] == Replay(log[..i], old(table[..]))
    {
      assert log[..i + 1][..i] == log[..i];
      var r := log[i];
      if r.index <= table.Length {
        table[r.index] := table[r.index].(addr := r.addr, euid := r.euid, role := r.role, perm := r.perm);
        if r.perm {
          table[r.index] := table[r.index].(slot := r.slot, lease := 0);
        }
      }
      i := i + 1;
    }
    assert log[..i] == log;
  }

  /** Replaying a sorted log fills the entries from 0 with its records, in order, and touches no other. */
  lemma {:induction false} ReplaySorted(out: seq<Node>, table: seq<Alloc.Entry>)
    requires Ordered(out) && |out| <= |table|
    ensures forall j :: 0 <= j < |out| ==> Replay(out, table)[j] == Restore(table[j], out[j])
    ensures forall j :: |out| <= j < |table| ==> Replay(out, table)[j] == table[j]
  {
    if out == [] {
    } else {
      var front := out[..|out| - 1];
      assert forall j :: 0 <= j < |front| ==> front[j] == out[j];
      ReplaySorted(front, table);
    }
  }

  /** The record that is kept of an entry (`panmaster_save_node`). */
  function RecordOf(e: Alloc.Entry, i: U8, seen: int, version: nat): Node {
    Node(i, e.addr, e.euid, e.role, e.perm, e.slot, seen, version)
  }

  /** Every entry comes back from its record, but for a slot that is not permanent and the lease. */
  lemma {:induction false} TableComesBack(table: seq<Alloc.Entry>, log: seq<Node>, fresh_: seq<Alloc.Entry>, i: nat)
    requires |log| <= |table| == |fresh_| && |log| <= Alloc.MAX_NODES && i < |log|
    requires forall k :: 0 <= k < |log| ==> log[k] == RecordOf(table[k], k, log[k].seen, log[k].version)
    ensures
      var e := Replay(log, fresh_)[i];
      && e.addr == table[i].addr && e.euid == table[i].euid && e.role == table[i].role && e.perm == table[i].perm
      && (if e.perm then e.slot == table[i].slot && e.lease == 0
          else e.slot == fresh_[i].slot && e.lease == fresh_[i].lease)
    decreases |log|
  {
    var last := |log| - 1;
    if i < last {
      TableComesBack(table, log[..last], fresh_, i);
    } else {
      NotYetReplayed(log[..last], fresh_, i);
    }
  }

  lemma {:induction false} NotYetReplayed(log: seq<Node>, table: seq<Alloc.Entry>, i: nat)
    requires i < |table| && forall k :: 0 <= k < |log| ==> log[k].index != i
    ensures Replay(log, table)[i] == table[i]
    decreases |log|
  {
    if log == [] {
    } else {
      NotYetReplayed(log[..|log| - 1], table, i);
    }
  }

  /** `panmaster_sort`: the sorted log is replayed into the live table. */
  method SortMaster(fcb: Fcb, table: array<Alloc.Entry>, blank: Node)
    requires table.Length <= Alloc.MAX_NODES
    requires blank.addr == FREE && forall i :: 0 <= i < |Flat(fcb.sectors)| ==> Flat(fcb.sectors)[i].addr <= FREE
    modifies fcb, table
    ensures Ordered(Flat(fcb.sectors)) && |Flat(fcb.sectors)| <= table.Length
    ensures Bag(Flat(fcb.sectors)) == LiveBag(Loaded(Flat(old(fcb.sectors)), seq(table.Length, _ => blank)))
    ensures forall x :: Bag(Flat(fcb.sectors))[x] == |Survivors(Flat(old(fcb.sectors)), table.Length, x)|
    ensures table[..] == Replay(Flat(fcb.sectors), old(table[..]))
  {
    ghost var log := Flat(fcb.sectors);
    fcb.Sort(table.Length, blank);
    forall x ensures Bag(Flat(fcb.sectors))[x] == |Survivors(log, table.Length, x)| {
      LoadedBag(log, table.Length, blank, x);
    }
    LoadTable(Flat(fcb.sectors), table);
  }

  /** No two records have the same nonzero address. */
  ghost predicate AddrsDiffer(out: seq<Node>) {
    forall i, j :: 0 <= i < |out| && 0 <= j < |out| && i != j && out[i].addr == out[j].addr ==> out[i].addr == 0
  }

  predicate InLog(out: seq<Node>, addr: nat) { exists i :: 0 <= i < |out| && out[i].addr == addr }

  /** Past the sorted records, the entry is stale if its address now stands further up as well. */
  predicate Stale(out: seq<Node>, e: Alloc.Entry) { e.addr != 0 && e.addr != FREE && InLog(out, e.addr) }

  /** Addresses stay distinct if and only if no entry past the sorted records is stale. */
  lemma SortKeepsAddrsIff(out: seq<Node>, table: seq<Alloc.Entry>)
    requires Ordered(out) && |out| <= |table| && AddrsDiffer(out) && Alloc.AddrsApart(table)
    ensures Alloc.AddrsApart(Replay(out, table))
            <==> forall j :: |out| <= j < |table| ==> !Stale(out, table[j])
  {
    ReplaySorted(out, table);
    var r := Replay(out, table);
    if j :| |out| <= j < |table| && Stale(out, table[j]) {
      var i :| 0 <= i < |out| && out[i].addr == table[j].addr;
      assert r[i].addr == r[j].addr;
    } else {
      forall i, j | 0 <= i < |r| && 0 <= j < |r| && i != j && r[i].addr == r[j].addr
        ensures r[i].addr == 0 || r[i].addr == FREE
      {
        if i < |out| <= j { assert InLog(out, table[j].addr); }
        if j < |out| <= i { assert InLog(out, table[i].addr); }
      }
    }
  }

  /**
   When every address in the table is in the log, they stay distinct if and only if all entries
   past the number of records are out of use: a table with gaps ends up with a device in two
   entries.
   */
  lemma GapsDuplicate(out: seq<Node>, table: seq<Alloc.Entry>)
    requires Ordered(out) && |out| <= |table| && AddrsDiffer(out) && Alloc.AddrsApart(table)
    requires forall j :: 0 <= j < |table| && table[j].addr != FREE ==> InLog(out, table[j].addr)
    ensures Alloc.AddrsApart(Replay(out, table))
            <==> forall j :: |out| <= j < |table| ==> table[j].addr == 0 || table[j].addr == FREE
  {
    SortKeepsAddrsIff(out, table);
    assert forall j :: |out| <= j < |table| ==>
      (Stale(out, table[j]) <==> table[j].addr != 0 && table[j].addr != FREE);
  }
}
