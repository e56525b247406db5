/**
 The neighbour cache of an interface (src/core/net.c): eight slots, replaced in turn.
 */
module Neighbors {
  import opened Options

  const SLOTS := 8              // MAX_NEIGHBORS
  const BROADCAST := 0xFFFF_FFFF

  datatype Slot<M> = Slot(ip: int, mac: M)

  /** Addresses that are worth remembering. */
  predicate Valid(ip: int) { ip != 0 && ip != BROADCAST }

  // ---------- the table ----------

  datatype Table<M> = Table(slots: seq<Slot<M>>, head: int)

  /** First slot with this address, or SLOTS. */
  function Find<M>(slots: seq<Slot<M>>, ip: int, k: nat): (i: int)
    requires k <= |slots|
    ensures k <= i <= |slots| && (i < |slots| ==> slots[i].ip == ip)
    ensures forall j :: k <= j < i ==> slots[j].ip != ip
    decreases |slots| - k
  {
    if k == |slots| || slots[k].ip == ip then k else Find(slots, ip, k + 1)
  }

  /** net_neighbor_remember. */
  function Remember<M>(t: Table<M>, ip: int, mac: M): Table<M>
    requires |t.slots| == SLOTS && 0 <= t.head < SLOTS
  {
    if !Valid(ip) then t
    else
      var i := Find(t.slots, ip, 0);
      if i < SLOTS then t.(slots := t.slots[i := Slot(ip, mac)])
      else Table(t.slots[t.head := Slot(ip, mac)], (t.head + 1) % SLOTS)
  }

  /** net_neighbor_lookup_on. */
  function Lookup<M>(t: Table<M>, ip: int): Option<M>
    requires |t.slots| == SLOTS
  {
    var i := Find(t.slots, ip, 0);
    if i < SLOTS then Some(t.slots[i].mac) else None
  }

  // ---------- the history ----------

  datatype Call<M> = Call(ip: int, mac: M)

  /** The latest hardware address given for ip. */
  function Latest<M>(h: seq<Call<M>>, ip: int): Option<M> {
    if h == [] then None
    else if h[|h| - 1].ip == ip then Some(h[|h| - 1].mac)
    else Latest(h[..|h| - 1], ip)
  }

  predicate Among(ins: seq<int>, ip: int) { exists k :: 0 <= k < |ins| && k >= |ins| - 8 && ins[k] == ip }

  /** The addresses in the order in which they were entered: a call enters one that is not among the last eight. */
  function Insertions<M>(h: seq<Call<M>>): seq<int> {
    if h == [] then []
    else
      var ins, ip := Insertions(h[..|h| - 1]), h[|h| - 1].ip;
      if ip != 0 && ip != 0xFFFF_FFFF && !Among(ins, ip) then ins + [ip] else ins
  }

  /** The table after a history, starting empty. */
  function After<M>(h: seq<Call<M>>, none: M): (t: Table<M>)
    ensures |t.slots| == SLOTS && 0 <= t.head < SLOTS
  {
    if h == [] then Table(seq(SLOTS, _ => Slot(0, none)), 0)
    else Remember(After(h[..|h| - 1], none), h[|h| - 1].ip, h[|h| - 1].mac)
  }

  // ---------- how the table stands for the history ----------

  /** Insertion k is one of the last eight, and its slot holds it with the latest address. */
  predicate HeldAt<M(==)>(t: Table<M>, h: seq<Call<M>>, ins: seq<int>, k: int)
    requires |t.slots| == SLOTS && 0 <= k < |ins|
  {
    Valid(ins[k]) && Latest(h, ins[k]).Some? && t.slots[k % SLOTS] == Slot(ins[k], Latest(h, ins[k]).value)
  }

  predicate Recent(ins: seq<int>, k: int) { 0 <= k < |ins| && |ins| - SLOTS <= k }

  predicate OtherIp(ins: seq<int>, i: int, j: int)
    requires 0 <= i < |ins| && 0 <= j < |ins|
  {
    ins[i] != ins[j]
  }

  ghost predicate Stands<M>(t: Table<M>, h: seq<Call<M>>, ins: seq<int>) {
    && |t.slots| == SLOTS && t.head == |ins| % SLOTS
    && (forall k :: Recent(ins, k) ==> HeldAt(t, h, ins, k))
    && (forall i, j :: Recent(ins, i) && Recent(ins, j) && i < j ==> OtherIp(ins, i, j))
    && (forall j :: |ins| <= j < SLOTS ==> t.slots[j].ip == 0)
  }

  /** The insertion that slot j holds, if it holds one. */
  lemma SlotHolds(n: nat, j: int) returns (k: int)
    requires 0 <= j < SLOTS && (n >= SLOTS || j < n)
    ensures 0 <= k < n && n - SLOTS <= k && k % SLOTS == j
  {
    if n <= SLOTS {
      k := j;
    } else {
      var q, r := n / SLOTS, n % SLOTS;
      k := if j < r then q * SLOTS + j else (q - 1) * SLOTS + j;
    }
  }

  /** A valid address is found exactly if it is among the last eight insertions, and then with its latest address. */
  lemma StandsLookup<M>(t: Table<M>, h: seq<Call<M>>, ins: seq<int>, ip: int)
    requires Stands(t, h, ins) && Valid(ip)
    ensures Lookup(t, ip) == if Among(ins, ip) then Latest(h, ip) else None
  {
    var i := Find(t.slots, ip, 0);
    if i < SLOTS {
      var k := SlotHolds(|ins|, i);
      assert HeldAt(t, h, ins, k);
    }
    if Among(ins, ip) {
      var k :| 0 <= k < |ins| && k >= |ins| - SLOTS && ins[k] == ip;
      assert HeldAt(t, h, ins, k);
    }
  }

  lemma LatestAfter<M>(h: seq<Call<M>>, c: Call<M>, ip: int)
    ensures Latest(h + [c], ip) == if c.ip == ip then Some(c.mac) else Latest(h, ip)
  {
    assert (h + [c])[..|h|] == h;
  }

  lemma SlotApart(i: int, j: int)
    requires 0 < j - i < SLOTS
    ensures i % SLOTS != j % SLOTS
  {}

  lemma StandsInvalid<M>(t: Table<M>, h: seq<Call<M>>, ins: seq<int>, c: Call<M>)
    requires Stands(t, h, ins) && !Valid(c.ip)
    ensures Stands(t, h + [c], ins)
  {
    var g := h + [c];
    forall k | Recent(ins, k) ensures HeldAt(t, g, ins, k) {
      assert HeldAt(t, h, ins, k);
      LatestAfter(h, c, ins[k]);
    }
  }

  /** An address in the table keeps its place and gets the new hardware address. */
  lemma StandsRefresh<M>(t: Table<M>, h: seq<Call<M>>, ins: seq<int>, c: Call<M>)
    requires Stands(t, h, ins) && Valid(c.ip) && Find(t.slots, c.ip, 0) < SLOTS && 0 <= t.head < SLOTS
    ensures Stands(Remember(t, c.ip, c.mac), h + [c], ins)
  {
    var g, u, i := h + [c], Remember(t, c.ip, c.mac), Find(t.slots, c.ip, 0);
    var at := SlotHolds(|ins|, i);
    assert HeldAt(t, h, ins, at);
    forall k | Recent(ins, k) ensures HeldAt(u, g, ins, k) {
      assert HeldAt(t, h, ins, k);
      LatestAfter(h, c, ins[k]);
      if k < at { SlotApart(k, at); assert OtherIp(ins, k, at); }
      if at < k { SlotApart(at, k); assert OtherIp(ins, at, k); }
    }
  }

  /** A new address takes the place of the oldest insertion. */
  lemma StandsInsert<M>(t: Table<M>, h: seq<Call<M>>, ins: seq<int>, c: Call<M>)
    requires Stands(t, h, ins) && Valid(c.ip) && Find(t.slots, c.ip, 0) == SLOTS && !Among(ins, c.ip)
    ensures 0 <= t.head < SLOTS && Stands(Remember(t, c.ip, c.mac), h + [c], ins + [c.ip])
  {
    var g, u, more, n := h + [c], Remember(t, c.ip, c.mac), ins + [c.ip], |ins|;
    forall k | Recent(more, k) ensures HeldAt(u, g, more, k) {
      LatestAfter(h, c, more[k]);
      if k < n {
        assert HeldAt(t, h, ins, k);
        SlotApart(k, n);
      }
    }
    forall i, j | Recent(more, i) && Recent(more, j) && i < j ensures OtherIp(more, i, j) {
      if j < n { assert OtherIp(ins, i, j); }
    }
    NextHead(n);
  }

  lemma NextHead(n: nat)
    ensures (n % SLOTS + 1) % SLOTS == (n + 1) % SLOTS
  {}

  lemma {:induction false} StandsAfter<M>(h: seq<Call<M>>, none: M)
    ensures Stands(After(h, none), h, Insertions(h))
  {
    if h != [] {
      var front, c := h[..|h| - 1], h[|h| - 1];
      StandsAfter(front, none);
      assert front + [c] == h;
      var t, ins := After(front, none), Insertions(front);
      if !Valid(c.ip) {
        StandsInvalid(t, front, ins, c);
      } else {
        StandsLookup(t, front, ins, c.ip);
        if Among(ins, c.ip) {
          var k :| 0 <= k < |ins| && k >= |ins| - SLOTS && ins[k] == c.ip;
          assert Recent(ins, k) && HeldAt(t, front, ins, k);
          StandsRefresh(t, front, ins, c);
        } else {
          StandsInsert(t, front, ins, c);
        }
      }
    }
  }

  /**
   After any history a valid address is answered exactly if its most recent insertion is among the last eight, and
   then with the latest hardware address given for it.
   */
  lemma HistoryLaw<M>(h: seq<Call<M>>, none: M, ip: int)
    requires ip != 0 && ip != 0xFFFF_FFFF
    ensures Lookup(After(h, none), ip) == if Among(Insertions(h), ip) then Latest(h, ip) else None
    ensures Among(Insertions(h), ip) ==> Latest(h, ip).Some?
  {
    StandsAfter(h, none);
    var t, ins := After(h, none), Insertions(h);
    StandsLookup(t, h, ins, ip);
    if Among(ins, ip) {
      var k :| 0 <= k < |ins| && k >= |ins| - SLOTS && ins[k] == ip;
      assert Recent(ins, k) && HeldAt(t, h, ins, k);
    }
  }

  /** Nothing is ever entered for the address 0 or the broadcast address. */
  lemma NeverEntered<M>(h: seq<Call<M>>, none: M, i: int)
    requires 0 <= i < 8
    ensures After(h, none).slots[i].ip != 0xFFFF_FFFF
    ensures After(h, none).slots[i].ip == 0 ==> After(h, none).slots[i].mac == none
    ensures Lookup(After(h, none), 0xFFFF_FFFF) == None
    ensures Lookup(After(h, none), 0) in {None, Some(none)}
  {
    forall j | 0 <= j < 8
      ensures After(h, none).slots[j].ip != 0xFFFF_FFFF
      ensures After(h, none).slots[j].ip == 0 ==> After(h, none).slots[j].mac == none
    {
      EnteredAt(h, none, j);
    }
  }

  lemma {:induction false} EnteredAt<M>(h: seq<Call<M>>, none: M, j: int)
    requires 0 <= j < 8
    ensures After(h, none).slots[j].ip != 0xFFFF_FFFF
    ensures After(h, none).slots[j].ip == 0 ==> After(h, none).slots[j].mac == none
  {
    if h != [] { EnteredAt(h[..|h| - 1], none, j); }
  }

  /** No address occurs twice. */
  lemma NoDuplicates<M>(h: seq<Call<M>>, none: M, i: int, j: int)
    requires 0 <= i < j < SLOTS && After(h, none).slots[i].ip != 0
    ensures After(h, none).slots[i].ip != After(h, none).slots[j].ip
  {
    StandsAfter(h, none);
    var t, ins := After(h, none), Insertions(h);
    if t.slots[j].ip != 0 {
      var a := SlotHolds(|ins|, i);
      var b := SlotHolds(|ins|, j);
      assert HeldAt(t, h, ins, a) && HeldAt(t, h, ins, b);
      if a < b { assert OtherIp(ins, a, b); } else { assert OtherIp(ins, b, a); }
    }
  }

  // ---------- the interface ----------

  class Interface<M(==)> {
    const neighbors: array<Slot<M>>
    var head: int
    const invalid: M              // ETH_INVALID_MAC
    ghost var history: seq<Call<M>>

    ghost predicate Ok()
      reads this, neighbors
    {
      neighbors.Length == SLOTS && Table(neighbors[..], head) == After(history, invalid)
    }

    constructor (none: M)
      ensures Ok() && history == []
    {
      neighbors := new Slot<M>[SLOTS](_ => Slot(0, none));
      head, invalid, history := 0, none, [];
      new;
      assert neighbors[..] == seq(SLOTS, _ => Slot(0, none));
    }

    /** net_neighbor_remember. */
    method RememberNeighbor(ip: int, mac: M)
      requires Ok()
      modifies this, neighbors
      ensures Ok() && history == old(history) + [Call(ip, mac)]
    {
      ghost var t := Table(neighbors[..], head);
      history := history + [Call(ip, mac)];
      assert history[..|history| - 1] == old(history);
      if ip == 0 { return; }
      if ip == BROADCAST { return; }
      var i := 0;
      while i < SLOTS
        invariant 0 <= i <= SLOTS && Find(t.slots, ip, i) == Find(t.slots, ip, 0)
        invariant neighbors[..] == t.slots && head == t.head
      {
        assert t.slots[i] == neighbors[i];
        if neighbors[i].ip == ip {
          neighbors[i] := Slot(ip, mac);
          return;
        }
        i := i + 1;
      }
      neighbors[head] := Slot(ip, mac);
      head := (head + 1) % SLOTS;
    }

    /** net_neighbor_lookup_on. */
    method LookupOn(ip: int) returns (mac: M)
      requires Ok()
      ensures mac == match Lookup(After(history, invalid), ip) case Some(m) => m case None => invalid
      ensures ip == 0 || ip == 0xFFFF_FFFF ==> mac == invalid
      ensures ip != 0 && ip != 0xFFFF_FFFF ==>
                mac == (if Among(Insertions(history), ip) && Latest(history, ip).Some?
                        then Latest(history, ip).value else invalid)
    {
      ghost var t := After(history, invalid);
      if Valid(ip) { HistoryLaw(history, invalid, ip); }
      NeverEntered(history, invalid, 0);
      var i := 0;
      while i < SLOTS
        invariant 0 <= i <= SLOTS && Find(t.slots, ip, i) == Find(t.slots, ip, 0)
      {
        assert t.slots[i] == neighbors[i];
        if neighbors[i].ip == ip { return neighbors[i].mac; }
        i := i + 1;
      }
      mac := invalid;
    }
  }
}
