/**
 The driver side of the receive queue, as code: the receive half of net_virtio_poll, the consumer's
 net_wait_udp4 and the recycling of a packet buffer, with the device running in between.
 */
module VirtioRxDriver {
  import opened VirtqRing
  import opened VirtioRx
  import ReceiveList

  /** What the handler has done since s, having fetched the used elements ds: the ring, the list, the recyclings. */
  ghost predicate Handled(s: Rx, g: Rx, ds: seq<int>, udp: int -> bool) {
    && g.reaped == s.reaped + |ds| && g.held == s.held && g.hand == Idle
    && g.queue == s.queue + Kept(ds, udp) && g.back == Credited(s.back, ds, udp)
  }

  lemma HandledMore(s: Rx, u: Rx, g: Rx, ds: seq<int>, d: int, udp: int -> bool)
    requires Handled(s, u, ds, udp) && g.reaped == u.reaped + 1 && g.held == u.held && g.hand == Idle
    requires 0 <= d < |u.back|
    requires g.queue == u.queue + (if udp(d) then [d] else [])
    requires g.back == if udp(d) then u.back else u.back[d := u.back[d] + 1]
    ensures Handled(s, g, ds + [d], udp)
  {
    assert (ds + [d])[..|ds|] == ds;
  }

  /** The list, the buffers of consumers, the recyclings and what the device did are as before. */
  predicate SameBut(s: Rx, g: Rx) {
    g.queue == s.queue && g.held == s.held && g.back == s.back && g.returned == s.returned
  }

  /** The loop has dealt with the first elements that s had to offer, and the others are still there. */
  ghost predicate Polling(s: Rx, g: Rx, ds: seq<int>, udp: int -> bool) {
    && 0 < s.size == |s.used| && s.reaped <= s.returned <= g.returned && g.reaped <= s.returned
    && ds <= Drained(s) && Handled(s, g, ds, udp) && Pending(s, g, s.returned)
  }

  lemma PollStart(s: Rx, udp: int -> bool)
    requires Inv(s) && s.hand == Idle
    ensures Reaches(s, s) && Polling(s, s, [], udp)
  {
    ReachSelf(s);
    forall r | Fetched(s) <= r < s.returned ensures SlotSame(s, s, r) {}
  }

  lemma PollMore(s: Rx, u: Rx, g: Rx, ds: seq<int>, d: int, udp: int -> bool)
    requires Polling(s, u, ds, udp) && u.reaped < s.returned && Pending(s, g, s.returned)
    requires g.reaped == u.reaped + 1 && g.held == u.held && g.hand == Idle && u.returned <= g.returned
    requires d == s.used[u.reaped % s.size] && 0 <= d < |u.back|
    requires g.queue == u.queue + (if udp(d) then [d] else [])
    requires g.back == if udp(d) then u.back else u.back[d := u.back[d] + 1]
    ensures Polling(s, g, ds + [d], udp)
  {
    HandledMore(s, u, g, ds, d, udp);
  }

  class RxQueue {
    const size: int
    const netbuf: int
    const stack: ReceiveList.NetStack
    var avail: seq<int>
    var availIdx: int
    var used: seq<int>
    var usedIdx: int
    var lastUsed: int
    ghost var g: Rx

    ghost predicate Mirrors()
      reads this
    {
      && g.size == size && g.avail == avail && g.availIdx == availIdx
      && g.used == used && g.usedIdx == usedIdx && g.lastUsed == lastUsed
    }

    ghost predicate Valid()
      reads this, stack
    {
      Inv(g) && Mirrors() && stack.Valid() && stack.q == g.queue && |stack.next| == size - 1
    }

    /** net_virtio_setup: publish every buffer but the last. */
    constructor (n: int, netbuf: int)
      requires GoodSize(n)
      ensures Valid() && g == Init(n) && fresh(stack)
      ensures size == n && availIdx == n - 1 && (forall i :: 0 <= i < n - 1 ==> avail[i] == i) && lastUsed == 0
    {
      size := n;
      this.netbuf := netbuf;
      stack := new ReceiveList.NetStack(n - 1);
      avail, availIdx := seq(n, i => if i < n - 1 then i else 0), n - 1;
      used, usedIdx, lastUsed := seq(n, _ => 0), 0, 0;
      g := Init(n);
      new;
      InitInv(n);
    }

    /** Any number of device steps. Callers know no more than the contract; standing still is one way to meet it. */
    method DeviceRuns()
      requires Valid()
      modifies `used, `usedIdx, `g
      ensures Valid() && exists tr :: IsDeviceRun(tr, old(g), g)
    {
      assert IsDeviceRun([g], g, g);
    }

    /** Let the device run. */
    method DeviceTurn(ghost s0: Rx, ghost stop: int)
      requires Valid() && Reaches(s0, g) && Pending(s0, g, stop) && stop <= g.returned
      modifies `used, `usedIdx, `g
      ensures Valid() && Reaches(s0, g) && Pending(s0, g, stop)
      ensures g.queue == old(g).queue && g.held == old(g).held && g.hand == old(g).hand && g.back == old(g).back
      ensures g.reaped == old(g).reaped && old(g).returned <= g.returned
    {
      ghost var s := g;
      DeviceRuns();
      ghost var tr :| IsDeviceRun(tr, s, g);
      DeviceFrame(tr, s, g, |tr| - 1);
      ReachDevice(s0, tr, s, g, |tr| - 1);
      PendingDevice(s0, tr, s, g, stop, |tr| - 1);
    }

    /**
     The receive half of net_virtio_poll. Of the packets that were in the used ring when it began, in that order, those
     that satisfy `udp` are appended to the receive list, and each of the others is recycled once.
     */
    method PollRx(udp: int -> bool)
      requires Valid() && g.hand == Idle
      modifies this, stack
      ensures Valid() && Reaches(old(g), g)
      ensures Handled(old(g), g, Drained(old(g)), udp)
      ensures forall d :: 0 <= d < size - 1 ==> g.back[d] == old(g).back[d] + One(d in Drained(old(g)) && !udp(d))
    {
      ghost var s0, ds := g, [];
      PollStart(g, udp);
      var idxUsed := usedIdx;
      WrapEqual(g.reaped, s0.returned);
      while lastUsed != idxUsed
        invariant Valid() && Reaches(s0, g) && Polling(s0, g, ds, udp)
        invariant idxUsed == s0.returned % WRAP && s0.returned < g.reaped + WRAP
        invariant lastUsed == idxUsed <==> g.reaped == s0.returned
        decreases s0.returned - g.reaped
      {
        ds := ReceiveTurn(udp, s0, ds);
        WrapEqual(g.reaped, s0.returned);
      }
      assert ds == Drained(s0);
      forall d | 0 <= d < size - 1 ensures g.back[d] == s0.back[d] + One(d in ds && !udp(d)) {
        DrainedOnce(s0, udp, d);
      }
    }

    /** One turn of the loop. */
    method ReceiveTurn(udp: int -> bool, ghost s0: Rx, ghost ds: seq<int>) returns (ghost ds': seq<int>)
      requires Valid() && Reaches(s0, g) && Polling(s0, g, ds, udp) && g.reaped < s0.returned
      modifies this, stack
      ensures Valid() && Reaches(s0, g) && Polling(s0, g, ds', udp) && g.reaped == old(g).reaped + 1
    {
      ghost var u := g;
      ghost var d := ReceiveOne(udp, s0, s0.returned);
      PollMore(s0, u, g, ds, d, udp);
      ds' := ds + [d];
      DeviceTurn(s0, s0.returned);
    }

    /** One element of the used ring: fetch, deliver or recycle, then move on. */
    method ReceiveOne(udp: int -> bool, ghost s0: Rx, ghost stop: int) returns (ghost d: int)
      requires Valid() && Reaches(s0, g) && Pending(s0, g, stop) && g.hand == Idle && g.reaped < stop <= g.returned
      modifies this, stack
      ensures Valid() && Reaches(s0, g) && Pending(s0, g, stop) && g.hand == Idle && g.held == old(g).held
      ensures g.reaped == old(g).reaped + 1 && g.returned >= old(g).returned
      ensures d == s0.used[old(g).reaped % s0.size] && 0 <= d < |old(g).back|
      ensures g.queue == old(g).queue + (if udp(d) then [d] else [])
      ensures g.back == if udp(d) then old(g).back else old(g).back[d := old(g).back[d] + 1]
    {
      var desc := FetchOne(s0, stop);
      d := desc;
      DeviceTurn(s0, stop);
      Dispatch(desc, udp, s0, stop);
      DeviceTurn(s0, stop);
      MoveOn(s0, stop);
    }

    /** net_receive_driver_frame: a UDP packet is appended to the list, any other one goes back into the avail ring. */
    method Dispatch(d: int, udp: int -> bool, ghost s0: Rx, ghost stop: int)
      requires Valid() && Reaches(s0, g) && Pending(s0, g, stop) && stop <= g.returned && g.hand == Got(d)
      modifies `avail, `availIdx, `g, stack
      ensures Valid() && Reaches(s0, g) && Pending(s0, g, stop) && g.hand == Done && g.held == old(g).held
      ensures g.reaped == old(g).reaped && g.returned == old(g).returned && 0 <= d < |old(g).back|
      ensures g.queue == old(g).queue + (if udp(d) then [d] else [])
      ensures g.back == if udp(d) then old(g).back else old(g).back[d := old(g).back[d] + 1]
    {
      if udp(d) {
        Deliver(d, s0);
      } else {
        Recycle(netbuf + FRAME_SIZE * d + NET_HDR, d, s0);
      }
      PendingSame(s0, old(g), g, stop);
    }

    method FetchOne(ghost s0: Rx, ghost stop: int) returns (d: int)
      requires Valid() && Reaches(s0, g) && Pending(s0, g, stop) && g.hand == Idle && g.reaped < stop <= g.returned
      modifies `g
      ensures Valid() && Reaches(s0, g) && Pending(s0, g, stop) && g.hand == Got(d) && SameBut(old(g), g)
      ensures d == s0.used[old(g).reaped % s0.size] && g.reaped == old(g).reaped
    {
      assert SlotSame(s0, g, g.reaped);
      CanFetchNow(g);
      FetchNext(g);
      d := used[lastUsed % size];
      FetchRun(s0, g);
      g := Fetch(g);
      PendingSame(s0, old(g), g, stop);
    }

    method Deliver(d: int, ghost s0: Rx)
      requires Valid() && Reaches(s0, g) && g.hand == Got(d)
      modifies `g, stack
      ensures Valid() && Reaches(s0, g) && CanEnlist(old(g)) && g == Enlist(old(g))
    {
      assert PlaceOk(g, d);
      stack.Enqueue(d);
      EnlistRun(s0, g);
      g := Enlist(g);
    }

    /** net_virtio_rxbuf_cleanup: find the descriptor of the packet and put it back into the avail ring. */
    method Recycle(buf: int, ghost d: int, ghost s0: Rx)
      requires Valid() && Reaches(s0, g) && 0 <= d < size - 1 && buf == netbuf + 2048 * d + 10
      requires g.hand == Got(d) || d in g.held
      modifies `avail, `availIdx, `g
      ensures Valid() && Reaches(s0, g)
      ensures CanPublish(old(g), d) && g == Recycled(old(g), d)
    {
      Requeue(buf, d);
      RecycleRun(s0, g, d);
      RecycledRing(g, d);
      g := Recycled(g, d);
    }

    method Requeue(buf: int, ghost d: int)
      requires 0 < size == |avail| && 0 <= d && buf == netbuf + 2048 * d + 10
      modifies `avail, `availIdx
      ensures avail == old(avail)[old(availIdx) % size := d] && availIdx == (old(availIdx) + 1) % WRAP
    {
      RecycleIndex(netbuf, d);
      var desc := (buf - netbuf) / FRAME_SIZE;
      Enqueue(desc);
    }

    /** virtioq_enqueue */
    method Enqueue(desc: int)
      requires 0 < size == |avail|
      modifies `avail, `availIdx
      ensures avail == old(avail)[old(availIdx) % size := desc] && availIdx == (old(availIdx) + 1) % WRAP
    {
      avail := avail[availIdx % size := desc];
      availIdx := (availIdx + 1) % WRAP;
    }

    method MoveOn(ghost s0: Rx, ghost stop: int)
      requires Valid() && Reaches(s0, g) && Pending(s0, g, stop) && g.hand == Done
      modifies `lastUsed, `g
      ensures Valid() && Reaches(s0, g) && Pending(s0, g, stop) && SameBut(old(g), g)
      ensures g.hand == Idle && g.reaped == old(g).reaped + 1
    {
      lastUsed := (lastUsed + 1) % WRAP;
      AdvanceRun(s0, g);
      g := Advance(g);
      PendingSame(s0, old(g), g, stop);
    }

    /**
     net_wait_udp4: walks the list until a packet matches or the time is over, and waits for an interrupt in between.
     `clock` is what time() returns at its successive calls. The consumer gets the oldest matching packet of the list
     as it was at the last walk, or nothing, when none matched and the time was over.
     */
    method WaitUdp(matches: (nat, int) -> bool, udp: (nat, int) -> bool, clock: nat -> int, endtime: int,
                   ghost last: nat)
      returns (nbuf: int, ghost u: Rx, ghost n: nat, ghost k: int)
      requires Valid() && g.hand == Idle && clock(last) > endtime
      modifies this, stack
      ensures Valid() && Reaches(old(g), u) && 0 <= k <= |u.queue| && u.held == old(g).held
      ensures forall i :: 0 <= i < k ==> !matches(n, u.queue[i])
      ensures k == |u.queue| ==> nbuf == -1 && g == u && clock(n) > endtime
      ensures k < |u.queue| ==> nbuf == u.queue[k] && matches(n, nbuf) && CanWait(u, k) && g == Wait(u, k)
    {
      ReachSelf(g);
      var round := 0;
      while true
        invariant Valid() && g.hand == Idle && Reaches(old(g), g) && g.held == old(g).held && round <= last
        decreases last - round
      {
        u, n := g, round;
        nbuf, k := WalkList(d => matches(round, d));
        if nbuf != -1 { return; }
        if clock(round) > endtime { return; }
        Halt(d => udp(round, d), old(g));
        round := round + 1;
      }
    }

    /** cpu_halt: the handler runs. */
    method Halt(udp: int -> bool, ghost s0: Rx)
      requires Valid() && g.hand == Idle && Reaches(s0, g)
      modifies this, stack
      ensures Valid() && g.hand == Idle && Reaches(s0, g) && g.held == old(g).held
    {
      PollRx(udp);
      ReachJoin(s0, old(g), g);
    }

    /** One walk: the oldest matching packet is taken out, if there is one. */
    method WalkList(matches: int -> bool) returns (nbuf: int, ghost k: int)
      requires Valid()
      modifies `g, stack
      ensures Valid() && Reaches(old(g), g) && 0 <= k <= |old(g).queue|
      ensures forall i :: 0 <= i < k ==> !matches(old(g).queue[i])
      ensures k == |old(g).queue| ==> nbuf == -1 && g == old(g)
      ensures k < |old(g).queue| ==>
                nbuf >= 0 && nbuf == old(g).queue[k] && matches(nbuf) && CanWait(old(g), k) && g == Wait(old(g), k)
    {
      ReachSelf(g);
      nbuf, k := stack.TakeMatching(matches);
      if k < |g.queue| {
        assert QueueOk(g, k);
        WaitRun(g, g, k);
        g := Wait(g, k);
      }
    }
  }

  lemma PendingSame(s: Rx, u: Rx, g: Rx, stop: int)
    requires Pending(s, u, stop) && g.size == u.size && g.used == u.used && Fetched(u) <= Fetched(g)
    ensures Pending(s, g, stop)
  {
    forall r | Fetched(g) <= r < stop ensures SlotSame(s, g, r) { assert SlotSame(s, u, r); }
  }

  lemma CanFetchNow(s: Rx)
    requires Inv(s) && s.hand == Idle && s.reaped < s.returned
    ensures CanFetch(s)
  {
    WrapEqual(s.reaped, s.returned);
    WrappedSlot(s.size, s.reaped);
    assert UsedOk(s, s.reaped);
  }
}
