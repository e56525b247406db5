/**
 The driver side of the transmit queue, as code: net_virtio_tx_enqueue and the transmit half of
 net_virtio_poll, running while the device moves on its own between any two of their accesses.
 */
module VirtioTxDriver {
  import opened VirtqRing
  import opened VirtioTx

  class TxQueue {
    const size: int
    var addr: seq<int>
    var avail: seq<int>
    var availIdx: int
    var used: seq<int>
    var usedIdx: int
    var lastUsed: int
    ghost var g: Tx

    ghost predicate Valid()
      reads this
    {
      && Inv(g) && g.size == size && g.addr == addr && g.avail == avail && g.availIdx == availIdx
      && g.used == used && g.usedIdx == usedIdx && g.lastUsed == lastUsed
    }

    constructor (n: nat)
      requires GoodSize(n)
      ensures Valid() && g == Init(n) && size == n
    {
      size := n;
      addr, avail, used := seq(n, _ => 0), seq(n, _ => 0), seq(n, _ => 0);
      availIdx, usedIdx, lastUsed := 0, 0, 0;
      g := Init(n);
      new;
      InitInv(n);
    }

    /** Any number of device steps. Callers know no more than the contract; standing still is one way to meet it. */
    method DeviceRuns()
      requires Valid()
      modifies `used, `usedIdx, `g
      ensures Valid() && exists tr :: IsDeviceRun(tr, old(g), g)
    {
      assert IsDeviceRun([g], g, g);
    }

    /** Any number of steps of the device, of the poll loop and of other enqueues; the descriptor d is not theirs. */
    method OthersRun(ghost d: int)
      requires Valid() && d in g.written
      modifies `addr, `avail, `availIdx, `used, `usedIdx, `lastUsed, `g
      ensures Valid() && (exists tr :: IsRun(tr, old(g), g)) && Kept(old(g), g, d)
    {
      assert IsRun([g], g, g);
    }

    /**
     net_virtio_tx_enqueue: true (ENOMEM) exactly when every descriptor is taken. Otherwise the first free descriptor
     d is claimed in state u and published in state w, behind whatever others publish after the claim. Between scan
     and claim only the device runs; TxInterrupts says what else may.
     */
    method TxEnqueue(frame: int) returns (full: bool, ghost d: int, ghost u: Tx, ghost w: Tx)
      requires Valid() && frame != 0
      modifies `addr, `avail, `availIdx, `used, `usedIdx, `lastUsed, `g
      ensures Valid() && Reaches(old(g), g)
      ensures full <==> 0 !in old(addr)
      ensures full ==> g == old(g)
      ensures !full ==> 0 <= d < |old(addr)| && old(addr)[d] == 0 && 0 !in old(addr)[..d]
      ensures !full ==> (exists tr :: IsDeviceRun(tr, old(g), u)) && CanWrite(u, d, frame)
      ensures !full ==> (exists tr :: IsRun(tr, Write(u, d, frame), w)) && CanPublish(w, d) && g == Publish(w, d)
      ensures !full ==> |g.sent| > |old(g).sent| && old(g).sent <= g.sent && g.sent[|g.sent| - 1] == frame
    {
      ghost var s0 := g;
      ReachSelf(g);
      var off := 0;
      while addr[off] != 0
        invariant 0 <= off < size && 0 !in addr[..off] && g == s0 && Valid()
        decreases size - off
      {
        off := off + 1;
        if off >= size {
          assert addr[..off] == addr;
          full, d, u, w := true, 0, g, g;
          return;
        }
      }
      assert addr[off] in addr;
      d := off;
      Advance(s0);
      u := g;
      Claim(off, frame, s0);
      Wait(off, s0);
      w := g;
      Enqueue(off, s0);
      full := false;
    }

    /** Let everybody else run. */
    method Wait(ghost d: int, ghost s0: Tx)
      requires Valid() && Reaches(s0, g) && d in g.written
      modifies `addr, `avail, `availIdx, `used, `usedIdx, `lastUsed, `g
      ensures Valid() && Reaches(s0, g) && Kept(old(g), g, d) && exists tr :: IsRun(tr, old(g), g)
    {
      ghost var s := g;
      OthersRun(d);
      ghost var tr :| IsRun(tr, s, g);
      ReachRun(s0, tr, s, g, |tr| - 1);
    }

    /** virtioq_enqueue: publish the descriptor that was written. */
    method Enqueue(desc: int, ghost s0: Tx)
      requires Valid() && Reaches(s0, g) && desc in g.written
      modifies `avail, `availIdx, `g
      ensures Valid() && Reaches(s0, g) && CanPublish(old(g), desc) && g == Publish(old(g), desc)
    {
      avail, availIdx := avail[availIdx % size := desc], (availIdx + 1) % WRAP;
      assert Step(g, Publish(g, desc));
      ReachStep(s0, g, Publish(g, desc));
      PublishInv(g, desc);
      g := Publish(g, desc);
    }

    /** Write the descriptor. */
    method Claim(off: int, frame: int, ghost s0: Tx)
      requires Valid() && Reaches(s0, g) && CanWrite(g, off, frame)
      modifies `addr, `g
      ensures Valid() && Reaches(s0, g) && g == Write(old(g), off, frame)
    {
      addr := addr[off := frame];
      assert Step(g, Write(g, off, frame));
      ReachStep(s0, g, Write(g, off, frame));
      WriteInv(g, off, frame);
      g := Write(g, off, frame);
    }

    /** Let the device run. */
    method Advance(ghost s0: Tx)
      requires Valid() && Reaches(s0, g)
      modifies `used, `usedIdx, `g
      ensures Valid() && Reaches(s0, g)
      ensures g.written == old(g).written && g.sent == old(g).sent && g.freed == old(g).freed
      ensures g.addr == old(g).addr && old(g).returned <= g.returned && exists tr :: IsDeviceRun(tr, old(g), g)
    {
      ghost var s := g;
      DeviceRuns();
      ghost var tr :| IsDeviceRun(tr, s, g);
      DeviceFrame(tr, s, g, |tr| - 1);
      ReachDevice(s0, tr, s, g, |tr| - 1);
    }

    /** The transmit half of net_virtio_poll: frees every frame that had been returned when it started. */
    method PollTx()
      requires Valid()
      modifies `addr, `used, `usedIdx, `lastUsed, `g
      ensures Valid() && Reaches(old(g), g)
      ensures |g.freed| == |old(g).returned| && old(g).freed <= g.freed
      ensures g.sent == old(g).sent && g.written == old(g).written
    {
      ghost var s0, stop := g, |g.returned|;
      ReachSelf(g);
      var idxUsed := usedIdx;
      Pending(g, stop);
      while lastUsed != idxUsed
        invariant Valid() && Reaches(s0, g) && |g.freed| <= stop <= |g.returned| && idxUsed == stop % WRAP
        invariant lastUsed == idxUsed <==> |g.freed| == stop
        invariant s0.freed <= g.freed && g.sent == s0.sent && g.written == s0.written
        decreases stop - |g.freed|
      {
        ReapOne(s0);
        Advance(s0);
        Pending(g, stop);
      }
    }

    /** One element of the used ring. */
    method ReapOne(ghost s0: Tx)
      requires Valid() && Reaches(s0, g) && |g.freed| < |g.returned|
      modifies `addr, `lastUsed, `g
      ensures Valid() && Reaches(s0, g) && |g.freed| == |old(g).freed| + 1 && old(g).freed <= g.freed
      ensures g.returned == old(g).returned && g.sent == old(g).sent && g.written == old(g).written
    {
      CanReapNow(g);
      var d := used[lastUsed % size];
      addr := addr[d := 0];
      lastUsed := (lastUsed + 1) % WRAP;
      assert Step(g, Reap(g));
      ReachStep(s0, g, Reap(g));
      ReapInv(g);
      g := Reap(g);
    }
  }

  /** Descriptor d is as it was, and nothing published is unpublished. */
  ghost predicate Kept(s: Tx, s': Tx, d: int) {
    d in s'.written && s.sent <= s'.sent && 0 <= d < |s.addr| == |s'.addr| && s'.addr[d] == s.addr[d]
  }

  /** The wrapped comparison of the poll loop is exact, because fewer than 2^16 descriptors are outstanding. */
  lemma Pending(s: Tx, stop: nat)
    requires Inv(s) && |s.freed| <= stop <= |s.returned|
    ensures s.lastUsed == stop % WRAP <==> |s.freed| == stop
  {
    WrapEqual(|s.freed|, stop);
  }

  lemma CanReapNow(s: Tx)
    requires Inv(s) && |s.freed| < |s.returned|
    ensures CanReap(s)
  {
    Pending(s, |s.returned|);
    WrappedSlot(s.size, |s.freed|);
    assert UsedOk(s, |s.freed|);
  }
}
