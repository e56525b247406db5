/**
 The virtio receive queue, the global receive list and the waiting consumer as one state machine.
 The device takes buffers from the avail ring and returns them filled; the interrupt handler fetches
 each returned buffer and either recycles it at once or puts it on the receive list; a consumer takes
 a buffer off the list, holds it and recycles it. Here an enqueue and a removal are one step each, and all steps
 interleave freely; RxInterrupts takes them apart.
 */
module VirtioRx {
  import opened VirtqRing

  datatype Place =
    | Avail(t: nat)
    | Flight
    | Used(r: nat)
    | InHand      // fetched by the interrupt handler
    | Queued      // on the receive list
    | Held        // taken by a consumer

  datatype Hand = Idle | Got(d: int) | Done

  datatype Rx = Rx(
    size: int,
    avail: seq<int>,
    availIdx: int,
    used: seq<int>,
    usedIdx: int,
    lastUsed: int,
    hand: Hand,           // where the interrupt handler is with the used element at lastUsed
    queue: seq<int>,      // the global receive list, oldest first
    held: set<int>,       // with consumers
    devIdx: int,          // device: next avail index
    flight: set<int>,     // device: buffers taken
    // history
    published: nat,
    taken: nat,
    returned: nat,
    reaped: nat,
    got: seq<nat>,        // receipts of each buffer
    back: seq<nat>,       // recyclings of each buffer
    place: seq<Place>)

  /** net_virtio_setup: all buffers but the last are published, in order. */
  function Init(n: int): Rx
    requires 0 < n
  {
    Rx(n, seq(n, i => if i < n - 1 then i else 0), n - 1, seq(n, _ => 0), 0, 0, Idle, [], {}, 0, {}, n - 1, 0, 0, 0,
       seq(n - 1, _ => 0), seq(n - 1, _ => 0), seq(n - 1, i requires 0 <= i => Avail(i)))
  }

  /** The first used element that nobody has fetched. */
  function Fetched(s: Rx): nat {
    s.reaped + if s.hand.Idle? then 0 else 1
  }

  // ---------- steps ----------

  predicate CanTake(s: Rx) {
    s.devIdx != s.availIdx && 0 < s.size == |s.avail| && 0 <= s.avail[s.devIdx % s.size] < |s.place|
  }

  function Take(s: Rx): Rx
    requires CanTake(s)
  {
    var d := s.avail[s.devIdx % s.size];
    s.(devIdx := (s.devIdx + 1) % WRAP, flight := s.flight + {d}, taken := s.taken + 1, place := s.place[d := Flight])
  }

  predicate CanReturn(s: Rx, d: int) {
    d in s.flight && 0 < s.size == |s.used| && 0 <= d < |s.place|
  }

  function Return(s: Rx, d: int): Rx
    requires CanReturn(s, d)
  {
    s.(used := s.used[s.usedIdx % s.size := d], usedIdx := (s.usedIdx + 1) % WRAP, flight := s.flight - {d},
       returned := s.returned + 1, place := s.place[d := Used(s.returned)])
  }

  predicate CanFetch(s: Rx) {
    s.hand == Idle && s.lastUsed != s.usedIdx && 0 < s.size == |s.used| &&
    0 <= s.used[s.lastUsed % s.size] < |s.place| == |s.got|
  }

  function Fetch(s: Rx): Rx
    requires CanFetch(s)
  {
    var d := s.used[s.lastUsed % s.size];
    s.(hand := Got(d), got := s.got[d := s.got[d] + 1], place := s.place[d := InHand])
  }

  predicate CanEnlist(s: Rx) {
    s.hand.Got? && 0 <= s.hand.d < |s.place|
  }

  /** A UDP packet goes to the end of the receive list. */
  function Enlist(s: Rx): Rx
    requires CanEnlist(s)
  {
    s.(hand := Done, queue := s.queue + [s.hand.d], place := s.place[s.hand.d := Queued])
  }

  predicate CanPublish(s: Rx, d: int) {
    0 <= d < |s.place| == |s.back| && 0 < s.size == |s.avail|
  }

  /** virtioq_enqueue, counting one recycling. */
  function Publish(s: Rx, d: int): Rx
    requires CanPublish(s, d)
  {
    s.(avail := s.avail[s.availIdx % s.size := d], availIdx := (s.availIdx + 1) % WRAP, published := s.published + 1,
       back := s.back[d := s.back[d] + 1], place := s.place[d := Avail(s.published)])
  }

  predicate CanDiscard(s: Rx) {
    s.hand.Got? && CanPublish(s, s.hand.d)
  }

  /** Any other packet is recycled by the handler itself. */
  function Discard(s: Rx): Rx
    requires CanDiscard(s)
  {
    Publish(s, s.hand.d).(hand := Done)
  }

  /** last_used moves on only after the packet has been dealt with. */
  function Advance(s: Rx): Rx {
    s.(hand := Idle, lastUsed := (s.lastUsed + 1) % WRAP, reaped := s.reaped + 1)
  }

  predicate CanWait(s: Rx, i: int) {
    0 <= i < |s.queue| && 0 <= s.queue[i] < |s.place|
  }

  /** A consumer unlinks the i-th packet of the list. */
  function Wait(s: Rx, i: int): Rx
    requires CanWait(s, i)
  {
    s.(queue := s.queue[..i] + s.queue[i + 1..], held := s.held + {s.queue[i]}, place := s.place[s.queue[i] := Held])
  }

  predicate CanRelease(s: Rx, d: int) {
    d in s.held && CanPublish(s, d)
  }

  function Release(s: Rx, d: int): Rx
    requires CanRelease(s, d)
  {
    Publish(s, d).(held := s.held - {d})
  }

  // ---------- invariant ----------

  predicate PlaceOk(s: Rx, d: int)
    requires 0 <= d < |s.place| == |s.got| == |s.back| && 0 < s.size == |s.avail| == |s.used|
  {
    && (s.place[d] == Flight <==> d in s.flight)
    && (s.place[d] == Held <==> d in s.held)
    && (s.place[d] == InHand <==> s.hand == Got(d))
    && (s.place[d] == Queued <==> d in s.queue)
    && (s.place[d].Avail? ==> s.taken <= s.place[d].t < s.published && s.avail[s.place[d].t % s.size] == d)
    && (s.place[d].Used? ==> Fetched(s) <= s.place[d].r < s.returned && s.used[s.place[d].r % s.size] == d)
    && s.got[d] == s.back[d] + if s.place[d] in {InHand, Queued, Held} then 1 else 0
  }

  predicate AvailOk(s: Rx, t: int)
    requires 0 <= t && 0 < s.size == |s.avail|
  {
    0 <= s.avail[t % s.size] < |s.place| && s.place[s.avail[t % s.size]] == Avail(t)
  }

  predicate UsedOk(s: Rx, r: int)
    requires 0 <= r && 0 < s.size == |s.used|
  {
    0 <= s.used[r % s.size] < |s.place| && s.place[s.used[r % s.size]] == Used(r)
  }

  predicate QueueOk(s: Rx, i: int)
    requires 0 <= i < |s.queue|
  {
    0 <= s.queue[i] < |s.place| && s.queue[i] !in s.queue[..i]
  }

  ghost predicate Shape(s: Rx) {
    && GoodSize(s.size) && |s.avail| == |s.used| == s.size && |s.place| == |s.got| == |s.back| == s.size - 1
    && Fetched(s) <= s.returned <= s.taken <= s.published
    && s.availIdx == s.published % WRAP && s.devIdx == s.taken % WRAP
    && s.usedIdx == s.returned % WRAP && s.lastUsed == s.reaped % WRAP
    && |s.flight| == s.taken - s.returned
    && s.published - Fetched(s) + |s.queue| + |s.held| + (if s.hand.Got? then 1 else 0) == s.size - 1
  }

  ghost predicate Inv(s: Rx) {
    && Shape(s)
    && (forall d :: 0 <= d < s.size - 1 ==> PlaceOk(s, d))
    && (forall t :: s.taken <= t < s.published ==> AvailOk(s, t))
    && (forall r :: Fetched(s) <= r < s.returned ==> UsedOk(s, r))
    && (forall i :: 0 <= i < |s.queue| ==> QueueOk(s, i))
    && (forall d :: d in s.flight || d in s.held ==> 0 <= d < s.size - 1)
    && (s.hand.Got? ==> 0 <= s.hand.d < s.size - 1)
  }

  lemma InitInv(n: int)
    requires GoodSize(n)
    ensures Inv(Init(n))
  {
    var s := Init(n);
    forall d | 0 <= d < n - 1 ensures PlaceOk(s, d) { SmallMod(d, n); }
    forall t | 0 <= t < n - 1 ensures AvailOk(s, t) { SmallMod(t, n); }
  }

  lemma SmallMod(d: int, n: int)
    requires 0 <= d < n
    ensures d % n == d
  {}

  lemma TakeNext(s: Rx)
    requires Inv(s) && CanTake(s)
    ensures s.taken < s.published && s.avail[s.devIdx % s.size] == s.avail[s.taken % s.size]
    ensures var d := s.avail[s.taken % s.size]; 0 <= d < s.size - 1 && s.place[d] == Avail(s.taken)
  {
    WrappedSlot(s.size, s.taken);
    assert AvailOk(s, s.taken);
  }

  lemma TakeInv(s: Rx)
    requires Inv(s) && CanTake(s)
    ensures Inv(Take(s))
  {
    var s' := Take(s);
    TakeNext(s);
    WrapNext(s.taken);
    assert PlaceOk(s, s.avail[s.taken % s.size]);
    forall e | 0 <= e < s.size - 1 ensures PlaceOk(s', e) { TakePlace(s, e); }
    forall t | s'.taken <= t < s.published ensures AvailOk(s', t) { assert AvailOk(s, t); }
    forall r | Fetched(s) <= r < s.returned ensures UsedOk(s', r) { assert UsedOk(s, r); }
    forall i | 0 <= i < |s.queue| ensures QueueOk(s', i) { assert QueueOk(s, i); }
  }

  lemma TakePlace(s: Rx, e: int)
    requires Inv(s) && CanTake(s) && 0 <= e < s.size - 1
    ensures PlaceOk(Take(s), e)
  {
    TakeNext(s);
    assert PlaceOk(s, e);
  }

  lemma ReturnRoom(s: Rx, d: int)
    requires Inv(s) && CanReturn(s, d)
    ensures s.returned < s.taken && s.returned - Fetched(s) < s.size - 1 && s.usedIdx % s.size == s.returned % s.size
    ensures 0 <= d < s.size - 1 && s.place[d] == Flight
  {
    assert s.flight == (s.flight - {d}) + {d};
    assert PlaceOk(s, d);
    WrappedSlot(s.size, s.returned);
  }

  lemma ReturnInv(s: Rx, d: int)
    requires Inv(s) && CanReturn(s, d)
    ensures Inv(Return(s, d))
  {
    var s' := Return(s, d);
    ReturnRoom(s, d);
    WrapNext(s.returned);
    forall e | 0 <= e < s.size - 1 ensures PlaceOk(s', e) { ReturnPlace(s, d, e); }
    forall t | s.taken <= t < s.published ensures AvailOk(s', t) { assert AvailOk(s, t); }
    forall r | Fetched(s) <= r < s'.returned ensures UsedOk(s', r) { ReturnUsed(s, d, r); }
    forall i | 0 <= i < |s.queue| ensures QueueOk(s', i) { assert QueueOk(s, i); }
  }

  lemma ReturnPlace(s: Rx, d: int, e: int)
    requires Inv(s) && CanReturn(s, d) && 0 <= e < s.size - 1
    ensures PlaceOk(Return(s, d), e)
  {
    ReturnRoom(s, d);
    assert PlaceOk(s, d);
    assert PlaceOk(s, e);
    if s.place[e].Used? {
      DistinctSlots(s.size, s.place[e].r, s.returned);
    }
  }

  lemma ReturnUsed(s: Rx, d: int, r: int)
    requires Inv(s) && CanReturn(s, d) && Fetched(s) <= r <= s.returned
    ensures UsedOk(Return(s, d), r)
  {
    ReturnRoom(s, d);
    if r < s.returned {
      assert UsedOk(s, r);
      DistinctSlots(s.size, r, s.returned);
    }
  }

  lemma FetchNext(s: Rx)
    requires Inv(s) && CanFetch(s)
    ensures s.reaped < s.returned && s.used[s.lastUsed % s.size] == s.used[s.reaped % s.size]
    ensures var d := s.used[s.reaped % s.size]; 0 <= d < s.size - 1 && s.place[d] == Used(s.reaped)
  {
    WrappedSlot(s.size, s.reaped);
    assert UsedOk(s, s.reaped);
  }

  lemma FetchInv(s: Rx)
    requires Inv(s) && CanFetch(s)
    ensures Inv(Fetch(s))
  {
    var s' := Fetch(s);
    FetchNext(s);
    assert PlaceOk(s, s.used[s.reaped % s.size]);
    forall e | 0 <= e < s.size - 1 ensures PlaceOk(s', e) { assert PlaceOk(s, e); }
    forall t | s.taken <= t < s.published ensures AvailOk(s', t) { assert AvailOk(s, t); }
    forall r | Fetched(s') <= r < s.returned ensures UsedOk(s', r) { assert UsedOk(s, r); }
    forall i | 0 <= i < |s.queue| ensures QueueOk(s', i) { assert QueueOk(s, i); }
  }

  lemma EnlistInv(s: Rx)
    requires Inv(s) && CanEnlist(s)
    ensures Inv(Enlist(s))
  {
    var s' := Enlist(s);
    assert PlaceOk(s, s.hand.d);
    forall e | 0 <= e < s.size - 1 ensures PlaceOk(s', e) { assert PlaceOk(s, e); }
    forall t | s.taken <= t < s.published ensures AvailOk(s', t) { assert AvailOk(s, t); }
    forall r | Fetched(s') <= r < s.returned ensures UsedOk(s', r) { assert UsedOk(s, r); }
    forall i | 0 <= i < |s'.queue| ensures QueueOk(s', i) { EnlistQueue(s, i); }
  }

  lemma EnlistQueue(s: Rx, i: int)
    requires Inv(s) && CanEnlist(s) && 0 <= i <= |s.queue|
    ensures QueueOk(Enlist(s), i)
  {
    var s' := Enlist(s);
    assert s'.queue[..i] == s.queue[..i];
    if i < |s.queue| {
      assert QueueOk(s, i);
    } else {
      assert PlaceOk(s, s.hand.d);
      assert s.queue[..i] == s.queue;
    }
  }

  /** Publishing a buffer that is in the driver's or a consumer's hands never runs over an unread slot. */
  lemma PublishRoom(s: Rx, d: int)
    requires Inv(s) && CanPublish(s, d) && (s.hand == Got(d) || d in s.held)
    ensures s.published - s.taken < s.size - 1 && s.availIdx % s.size == s.published % s.size
    ensures s.place[d] in {InHand, Held}
  {
    if d in s.held { assert s.held == (s.held - {d}) + {d}; }
    assert PlaceOk(s, d);
    WrappedSlot(s.size, s.published);
  }

  lemma PublishAvail(s: Rx, d: int, t: int)
    requires Inv(s) && CanPublish(s, d) && (s.hand == Got(d) || d in s.held) && s.taken <= t <= s.published
    ensures AvailOk(Publish(s, d), t)
  {
    PublishRoom(s, d);
    if t < s.published {
      assert AvailOk(s, t);
      DistinctSlots(s.size, t, s.published);
    }
  }

  lemma PublishKeepsSlot(s: Rx, d: int, e: int)
    requires Inv(s) && CanPublish(s, d) && (s.hand == Got(d) || d in s.held)
    requires 0 <= e < s.size - 1 && s.place[e].Avail?
    ensures Publish(s, d).avail[s.place[e].t % s.size] == e && e != d
  {
    PublishRoom(s, d);
    assert PlaceOk(s, e);
    DistinctSlots(s.size, s.place[e].t, s.published);
  }

  lemma DiscardInv(s: Rx)
    requires Inv(s) && CanDiscard(s)
    ensures Inv(Discard(s))
  {
    var s', d := Discard(s), s.hand.d;
    PublishRoom(s, d);
    WrapNext(s.published);
    forall e | 0 <= e < s.size - 1 ensures PlaceOk(s', e) {
      assert PlaceOk(s, e);
      if s.place[e].Avail? { PublishKeepsSlot(s, d, e); }
    }
    forall t | s.taken <= t < s'.published ensures AvailOk(s', t) { PublishAvail(s, d, t); }
    forall r | Fetched(s') <= r < s.returned ensures UsedOk(s', r) { assert UsedOk(s, r); }
    forall i | 0 <= i < |s'.queue| ensures QueueOk(s', i) { assert QueueOk(s, i); }
  }

  lemma AdvanceInv(s: Rx)
    requires Inv(s) && s.hand == Done
    ensures Inv(Advance(s))
  {
    var s' := Advance(s);
    WrapNext(s.reaped);
    forall e | 0 <= e < s.size - 1 ensures PlaceOk(s', e) { assert PlaceOk(s, e); }
    forall t | s.taken <= t < s'.published ensures AvailOk(s', t) { assert AvailOk(s, t); }
    forall r | Fetched(s') <= r < s.returned ensures UsedOk(s', r) { assert UsedOk(s, r); }
    forall i | 0 <= i < |s'.queue| ensures QueueOk(s', i) { assert QueueOk(s, i); }
  }

  lemma ReleaseInv(s: Rx, d: int)
    requires Inv(s) && CanRelease(s, d)
    ensures Inv(Release(s, d))
  {
    var s' := Release(s, d);
    PublishRoom(s, d);
    WrapNext(s.published);
    assert s.held == s'.held + {d};
    forall e | 0 <= e < s.size - 1 ensures PlaceOk(s', e) {
      assert PlaceOk(s, e);
      if s.place[e].Avail? { PublishKeepsSlot(s, d, e); }
    }
    forall t | s.taken <= t < s'.published ensures AvailOk(s', t) { PublishAvail(s, d, t); }
    forall r | Fetched(s') <= r < s.returned ensures UsedOk(s', r) { assert UsedOk(s, r); }
    forall i | 0 <= i < |s'.queue| ensures QueueOk(s', i) { assert QueueOk(s, i); }
  }

  lemma WaitInv(s: Rx, i: int)
    requires Inv(s) && CanWait(s, i)
    ensures Inv(Wait(s, i))
  {
    var s', d := Wait(s, i), s.queue[i];
    assert QueueOk(s, i);
    assert PlaceOk(s, d);
    assert s'.held == s.held + {d} && d !in s.held;
    forall e | 0 <= e < s.size - 1 ensures PlaceOk(s', e) {
      assert PlaceOk(s, e);
      WaitQueue(s, i, e);
    }
    forall t | s.taken <= t < s'.published ensures AvailOk(s', t) { assert AvailOk(s, t); }
    forall r | Fetched(s') <= r < s.returned ensures UsedOk(s', r) { assert UsedOk(s, r); }
    forall j | 0 <= j < |s'.queue| ensures QueueOk(s', j) { WaitQueueOk(s, i, j); }
  }

  lemma WaitQueue(s: Rx, i: int, e: int)
    requires Inv(s) && CanWait(s, i)
    ensures e in Wait(s, i).queue <==> e in s.queue && e != s.queue[i]
  {
    var q := Wait(s, i).queue;
    if e in q {
      var j :| 0 <= j < |q| && q[j] == e;
      var j' := if j < i then j else j + 1;
      assert s.queue[j'] == e && QueueOk(s, if j' < i then i else j');
      assert s.queue[if j' < i then j' else i] in s.queue[..if j' < i then i else j'];
    }
    if e in s.queue && e != s.queue[i] {
      var j :| 0 <= j < |s.queue| && s.queue[j] == e;
      assert q[if j < i then j else j - 1] == e;
    }
  }

  lemma WaitQueueOk(s: Rx, i: int, j: int)
    requires Inv(s) && CanWait(s, i) && 0 <= j < |s.queue| - 1
    ensures QueueOk(Wait(s, i), j)
  {
    var q := Wait(s, i).queue;
    var j' := if j < i then j else j + 1;
    assert QueueOk(s, j') && q[j] == s.queue[j'];
    forall k | 0 <= k < j ensures q[k] != q[j] {
      var k' := if k < i then k else k + 1;
      assert q[k] == s.queue[k'] && s.queue[k'] in s.queue[..j'];
    }
  }

  // ---------- runs ----------

  ghost predicate DeviceStep(s: Rx, s': Rx) {
    || (CanTake(s) && s' == Take(s))
    || (exists d :: CanReturn(s, d) && s' == Return(s, d))
  }

  ghost predicate HandlerStep(s: Rx, s': Rx) {
    || (CanFetch(s) && s' == Fetch(s))
    || (CanEnlist(s) && s' == Enlist(s))
    || (CanDiscard(s) && s' == Discard(s))
    || (s.hand == Done && s' == Advance(s))
  }

  ghost predicate ConsumerStep(s: Rx, s': Rx) {
    || (exists i :: CanWait(s, i) && s' == Wait(s, i))
    || (exists d :: CanRelease(s, d) && s' == Release(s, d))
  }

  ghost predicate Step(s: Rx, s': Rx) {
    DeviceStep(s, s') || HandlerStep(s, s') || ConsumerStep(s, s')
  }

  lemma StepInv(s: Rx, s': Rx)
    requires Inv(s) && Step(s, s')
    ensures Inv(s') && s'.size == s.size
  {
    if DeviceStep(s, s') {
      if CanTake(s) && s' == Take(s) {
        TakeInv(s);
      } else {
        var d :| CanReturn(s, d) && s' == Return(s, d);
        ReturnInv(s, d);
      }
    } else if HandlerStep(s, s') {
      HandlerInv(s, s');
    } else if i :| CanWait(s, i) && s' == Wait(s, i) {
      WaitInv(s, i);
    } else {
      var d :| CanRelease(s, d) && s' == Release(s, d);
      ReleaseInv(s, d);
    }
  }

  lemma HandlerInv(s: Rx, s': Rx)
    requires Inv(s) && HandlerStep(s, s')
    ensures Inv(s') && s'.size == s.size
  {
    if CanFetch(s) && s' == Fetch(s) {
      FetchInv(s);
    } else if CanEnlist(s) && s' == Enlist(s) {
      EnlistInv(s);
    } else if CanDiscard(s) && s' == Discard(s) {
      DiscardInv(s);
    } else {
      AdvanceInv(s);
    }
  }

  ghost predicate StepAt(tr: seq<Rx>, i: int)
    requires 0 <= i < |tr| - 1
  {
    Step(tr[i], tr[i + 1])
  }

  /** A run: any interleaving of steps. */
  ghost predicate IsRun(tr: seq<Rx>, s: Rx, s': Rx) {
    tr != [] && tr[0] == s && tr[|tr| - 1] == s' && forall i :: 0 <= i < |tr| - 1 ==> StepAt(tr, i)
  }

  ghost predicate Reaches(s: Rx, s': Rx) {
    exists tr :: IsRun(tr, s, s')
  }

  ghost predicate DeviceStepAt(tr: seq<Rx>, i: int)
    requires 0 <= i < |tr| - 1
  {
    DeviceStep(tr[i], tr[i + 1])
  }

  /** A run of the device alone. */
  ghost predicate IsDeviceRun(tr: seq<Rx>, s: Rx, s': Rx) {
    tr != [] && tr[0] == s && tr[|tr| - 1] == s' && forall i :: 0 <= i < |tr| - 1 ==> DeviceStepAt(tr, i)
  }

  lemma {:induction false} RunInv(tr: seq<Rx>, s: Rx, s': Rx, k: nat)
    requires IsRun(tr, s, s') && Inv(s) && k < |tr|
    ensures Inv(tr[k]) && tr[k].size == s.size
  {
    if k > 0 {
      RunInv(tr, s, s', k - 1);
      assert StepAt(tr, k - 1);
      StepInv(tr[k - 1], tr[k]);
    }
  }

  lemma AllRunsInv(n: int, s: Rx)
    requires GoodSize(n) && Reaches(Init(n), s)
    ensures Inv(s) && s.size == n
  {
    InitInv(n);
    var tr :| IsRun(tr, Init(n), s);
    RunInv(tr, Init(n), s, |tr| - 1);
  }

  lemma ReachSelf(s: Rx)
    ensures Reaches(s, s)
  {
    assert IsRun([s], s, s);
  }

  lemma ReachStep(s: Rx, u: Rx, s': Rx)
    requires Reaches(s, u) && Step(u, s')
    ensures Reaches(s, s')
  {
    var tr :| IsRun(tr, s, u);
    var tr' := tr + [s'];
    forall i | 0 <= i < |tr'| - 1 ensures StepAt(tr', i) {
      if i < |tr| - 1 { assert StepAt(tr, i); }
    }
    assert IsRun(tr', s, s');
  }

  lemma {:induction false} ReachJoin(s: Rx, u: Rx, s': Rx)
    requires Reaches(s, u) && Reaches(u, s')
    ensures Reaches(s, s')
  {
    var a :| IsRun(a, s, u);
    var b :| IsRun(b, u, s');
    var tr := a + b[1..];
    forall i | 0 <= i < |tr| - 1 ensures StepAt(tr, i) {
      if i < |a| - 1 { assert StepAt(a, i); } else { assert StepAt(b, i - |a| + 1); }
    }
    assert IsRun(tr, s, s');
  }

  // Each step of handler and consumer, from a state that a run has reached.

  lemma FetchRun(s0: Rx, s: Rx)
    requires Reaches(s0, s) && Inv(s) && CanFetch(s)
    ensures Reaches(s0, Fetch(s)) && Inv(Fetch(s))
  {
    assert Step(s, Fetch(s));
    ReachStep(s0, s, Fetch(s));
    FetchInv(s);
  }

  lemma EnlistRun(s0: Rx, s: Rx)
    requires Reaches(s0, s) && Inv(s) && CanEnlist(s)
    ensures Reaches(s0, Enlist(s)) && Inv(Enlist(s))
  {
    assert Step(s, Enlist(s));
    ReachStep(s0, s, Enlist(s));
    EnlistInv(s);
  }

  lemma DiscardRun(s0: Rx, s: Rx)
    requires Reaches(s0, s) && Inv(s) && CanDiscard(s)
    ensures Reaches(s0, Discard(s)) && Inv(Discard(s))
  {
    assert Step(s, Discard(s));
    ReachStep(s0, s, Discard(s));
    DiscardInv(s);
  }

  lemma AdvanceRun(s0: Rx, s: Rx)
    requires Reaches(s0, s) && Inv(s) && s.hand == Done
    ensures Reaches(s0, Advance(s)) && Inv(Advance(s))
  {
    assert Step(s, Advance(s));
    ReachStep(s0, s, Advance(s));
    AdvanceInv(s);
  }

  lemma WaitRun(s0: Rx, s: Rx, i: int)
    requires Reaches(s0, s) && Inv(s) && CanWait(s, i)
    ensures Reaches(s0, Wait(s, i)) && Inv(Wait(s, i))
  {
    assert Step(s, Wait(s, i));
    ReachStep(s0, s, Wait(s, i));
    WaitInv(s, i);
  }

  lemma ReleaseRun(s0: Rx, s: Rx, d: int)
    requires Reaches(s0, s) && Inv(s) && CanRelease(s, d)
    ensures Reaches(s0, Release(s, d)) && Inv(Release(s, d))
  {
    assert Step(s, Release(s, d));
    ReachStep(s0, s, Release(s, d));
    ReleaseInv(s, d);
  }

  /** Putting buffer `d` back, whoever has it. */
  function Recycled(s: Rx, d: int): Rx
    requires CanPublish(s, d) && (s.hand == Got(d) || d in s.held)
  {
    if s.hand == Got(d) then Discard(s) else Release(s, d)
  }

  lemma RecycledRing(s: Rx, d: int)
    requires CanPublish(s, d) && (s.hand == Got(d) || d in s.held)
    ensures var r := Recycled(s, d);
            && r.size == s.size && r.avail == s.avail[s.availIdx % s.size := d] && r.availIdx == (s.availIdx + 1) % WRAP
            && r.used == s.used && r.usedIdx == s.usedIdx && r.lastUsed == s.lastUsed && r.queue == s.queue
  {}

  lemma RecycleRun(s0: Rx, s: Rx, d: int)
    requires Reaches(s0, s) && Inv(s) && CanPublish(s, d) && (s.hand == Got(d) || d in s.held)
    ensures Reaches(s0, Recycled(s, d)) && Inv(Recycled(s, d))
  {
    if s.hand == Got(d) {
      DiscardRun(s0, s);
    } else {
      ReleaseRun(s0, s, d);
    }
  }

  lemma {:induction false} ReachDevice(s0: Rx, tr: seq<Rx>, s: Rx, s': Rx, k: nat)
    requires Reaches(s0, s) && IsDeviceRun(tr, s, s') && k < |tr|
    ensures Reaches(s0, tr[k])
  {
    if k > 0 {
      ReachDevice(s0, tr, s, s', k - 1);
      assert DeviceStepAt(tr, k - 1);
      ReachStep(s0, tr[k - 1], tr[k]);
    }
  }

  /** The device leaves the driver's and the consumers' part alone. */
  lemma {:induction false} DeviceFrame(tr: seq<Rx>, s: Rx, s': Rx, k: nat)
    requires IsDeviceRun(tr, s, s') && k < |tr|
    ensures tr[k].size == s.size && tr[k].queue == s.queue && tr[k].held == s.held && tr[k].hand == s.hand
    ensures tr[k].reaped == s.reaped && s.returned <= tr[k].returned && tr[k].lastUsed == s.lastUsed
    ensures tr[k].got == s.got && tr[k].back == s.back
  {
    if k > 0 {
      DeviceFrame(tr, s, s', k - 1);
      assert DeviceStepAt(tr, k - 1);
    }
  }

  // ---------- conservation ----------

  /** The buffer is in an avail slot that the device has not read. */
  ghost predicate InAvail(s: Rx, d: int)
    requires 0 < s.size == |s.avail|
  {
    exists t: nat :: s.taken <= t < s.published && s.avail[t % s.size] == d
  }

  /** The buffer is in a used slot that the handler has not fetched. */
  ghost predicate InUsed(s: Rx, d: int)
    requires 0 < s.size == |s.used|
  {
    exists r: nat :: Fetched(s) <= r < s.returned && s.used[r % s.size] == d
  }

  function One(b: bool): int { if b then 1 else 0 }

  lemma WhereItIs(s: Rx, d: int)
    requires Inv(s) && 0 <= d < s.size - 1
    ensures InAvail(s, d) == s.place[d].Avail? && InUsed(s, d) == s.place[d].Used?
  {
    assert PlaceOk(s, d);
    if t: nat :| s.taken <= t < s.published && s.avail[t % s.size] == d {
      assert AvailOk(s, t);
    }
    if r: nat :| Fetched(s) <= r < s.returned && s.used[r % s.size] == d {
      assert UsedOk(s, r);
    }
  }

  /** The buffer is in exactly one place, and was recycled once for each receipt but one still being handled. */
  ghost predicate Conserved(s: Rx, d: int)
    requires 0 <= d < |s.got| == |s.back| && 0 < s.size == |s.avail| == |s.used|
  {
    && One(InAvail(s, d)) + One(d in s.flight) + One(InUsed(s, d)) + One(s.hand == Got(d))
       + One(d in s.queue) + One(d in s.held) == 1
    && s.got[d] == s.back[d] + One(s.hand == Got(d)) + One(d in s.queue) + One(d in s.held)
  }

  lemma InvConserves(s: Rx, d: int)
    requires Inv(s) && 0 <= d < s.size - 1
    ensures Conserved(s, d)
  {
    WhereItIs(s, d);
    assert PlaceOk(s, d);
  }

  /** In every reachable state each of the size - 1 buffers is conserved. */
  lemma BuffersConserved(n: int, s: Rx, d: int)
    requires GoodSize(n) && Reaches(Init(n), s) && 0 <= d < n - 1
    ensures Inv(s) && s.size == n && Conserved(s, d)
  {
    AllRunsInv(n, s);
    InvConserves(s, d);
  }

  /** No step overwrites an avail slot that the device has not read yet, nor a used slot not yet fetched. */
  lemma SlotsNotOverwritten(s: Rx, s': Rx, t: int)
    requires Inv(s) && Step(s, s') && 0 <= t
    ensures s'.taken <= t < s.published ==> s'.avail[t % s.size] == s.avail[t % s.size]
    ensures Fetched(s') <= t < s.returned ==> s'.used[t % s.size] == s.used[t % s.size]
  {
    StepInv(s, s');
    if s'.taken <= t < s.published {
      assert AvailOk(s, t) && AvailOk(s', t);
      AvailStable(s, s', t);
    }
    if Fetched(s') <= t < s.returned {
      UsedStable(s, s', t);
    }
  }

  lemma AvailStable(s: Rx, s': Rx, t: int)
    requires Inv(s) && Step(s, s') && 0 <= t && s'.taken <= t < s.published
    ensures s'.avail[t % s.size] == s.avail[t % s.size]
  {
    if s'.published > s.published {
      var d := s'.avail[s.availIdx % s.size];
      if CanDiscard(s) && s' == Discard(s) {
        PublishRoom(s, s.hand.d);
        DistinctSlots(s.size, t, s.published);
      } else {
        var e :| CanRelease(s, e) && s' == Release(s, e);
        PublishRoom(s, e);
        DistinctSlots(s.size, t, s.published);
      }
    }
  }

  lemma UsedStable(s: Rx, s': Rx, r: int)
    requires Inv(s) && Step(s, s') && 0 <= r && Fetched(s') <= r < s.returned
    ensures s'.used[r % s.size] == s.used[r % s.size]
  {
    if s'.returned > s.returned {
      var d :| CanReturn(s, d) && s' == Return(s, d);
      ReturnRoom(s, d);
      DistinctSlots(s.size, r, s.returned);
    }
  }

  // ---------- what one interrupt finds ----------

  predicate SlotSame(s: Rx, s': Rx, r: int)
    requires 0 <= r && 0 < s.size == s'.size == |s.used| == |s'.used|
  {
    s'.used[r % s.size] == s.used[r % s.size]
  }

  /** The used elements before `stop` that have not been fetched are still those of s. */
  ghost predicate Pending(s: Rx, s': Rx, stop: int) {
    0 < s.size == s'.size == |s.used| == |s'.used| && forall r :: Fetched(s') <= r < stop ==> SlotSame(s, s', r)
  }

  /** The descriptors that the device had returned in s and the handler had not fetched, in order. */
  function Drained(s: Rx): seq<int>
    requires 0 < s.size == |s.used| && s.reaped <= s.returned
  {
    seq(s.returned - s.reaped, i requires 0 <= i => s.used[(s.reaped + i) % s.size])
  }

  lemma PendingStep(s: Rx, u: Rx, s': Rx, stop: int)
    requires Inv(u) && Step(u, s') && Pending(s, u, stop) && stop <= u.returned && Fetched(u) <= Fetched(s')
    ensures Inv(s') && Pending(s, s', stop)
  {
    StepInv(u, s');
    forall r | Fetched(s') <= r < stop ensures SlotSame(s, s', r) {
      assert SlotSame(s, u, r);
      UsedStable(u, s', r);
    }
  }

  lemma {:induction false} PendingDevice(s0: Rx, tr: seq<Rx>, s: Rx, s': Rx, stop: int, k: nat)
    requires IsDeviceRun(tr, s, s') && Inv(s) && Pending(s0, s, stop) && stop <= s.returned && k < |tr|
    ensures Inv(tr[k]) && Pending(s0, tr[k], stop)
  {
    if k > 0 {
      PendingDevice(s0, tr, s, s', stop, k - 1);
      DeviceFrame(tr, s, s', k - 1);
      assert DeviceStepAt(tr, k - 1);
      PendingStep(s0, tr[k - 1], tr[k], stop);
    }
  }

  function Kept(ds: seq<int>, udp: int -> bool): (r: seq<int>) {
    if ds == [] then []
    else Kept(ds[..|ds| - 1], udp) + if udp(ds[|ds| - 1]) then [ds[|ds| - 1]] else []
  }

  /** The recyclings after the packets ds have been dealt with: one more for each that was not kept. */
  function Credited(back: seq<nat>, ds: seq<int>, udp: int -> bool): (r: seq<nat>)
    ensures |r| == |back|
  {
    if ds == [] then back
    else
      var b, d := Credited(back, ds[..|ds| - 1], udp), ds[|ds| - 1];
      if 0 <= d < |b| && !udp(d) then b[d := b[d] + 1] else b
  }

  predicate NewAt(ds: seq<int>, j: int)
    requires 0 <= j < |ds|
  {
    ds[j] !in ds[..j]
  }

  predicate NoRepeats(ds: seq<int>) { forall j :: 0 <= j < |ds| ==> NewAt(ds, j) }

  lemma NoRepeatsFront(ds: seq<int>)
    requires ds != [] && NoRepeats(ds)
    ensures NoRepeats(ds[..|ds| - 1]) && ds[|ds| - 1] !in ds[..|ds| - 1]
  {
    var fs := ds[..|ds| - 1];
    assert NewAt(ds, |ds| - 1);
    forall j | 0 <= j < |fs| ensures NewAt(fs, j) {
      assert NewAt(ds, j) && fs[..j] == ds[..j];
    }
  }

  lemma {:induction false} CreditedOnce(back: seq<nat>, ds: seq<int>, udp: int -> bool, d: int)
    requires 0 <= d < |back| && NoRepeats(ds)
    ensures Credited(back, ds, udp)[d] == back[d] + One(d in ds && !udp(d))
  {
    if ds != [] {
      var fs, x := ds[..|ds| - 1], ds[|ds| - 1];
      NoRepeatsFront(ds);
      CreditedOnce(back, fs, udp, d);
      assert ds == fs + [x];
    }
  }

  /** No descriptor is in the used ring twice, so each is recycled once for the packet in it, unless that is kept. */
  lemma DrainedOnce(s: Rx, udp: int -> bool, d: int)
    requires Inv(s) && s.hand == Idle && 0 <= d < s.size - 1
    ensures Credited(s.back, Drained(s), udp)[d] == s.back[d] + One(d in Drained(s) && !udp(d))
  {
    var ds := Drained(s);
    forall j | 0 <= j < |ds| ensures NewAt(ds, j) {
      assert UsedOk(s, s.reaped + j);
      forall i | 0 <= i < j ensures ds[i] != ds[j] { assert UsedOk(s, s.reaped + i); }
    }
    CreditedOnce(s.back, ds, udp, d);
  }

  // ---------- the recycle arithmetic ----------

  const FRAME_SIZE := 2048
  const NET_HDR := 10

  function DescAddr(netbuf: int, d: int): int { netbuf + FRAME_SIZE * d }

  /** net_virtio_rxbuf_cleanup gets back the descriptor from the packet pointer the poll loop made. */
  lemma RecycleIndex(netbuf: int, d: int)
    requires 0 <= d
    ensures DescAddr(netbuf, d) + NET_HDR == netbuf + 2048 * d + 10
    ensures (netbuf + 2048 * d + 10 - netbuf) / FRAME_SIZE == d
  {}

  /** The list node of a packet, 20 bytes at offset 1528, lies inside its own buffer, so no two nodes overlap. */
  lemma NodesDisjoint(netbuf: int, d: int, e: int)
    requires d < e
    ensures DescAddr(netbuf, d) + 1528 + 20 <= DescAddr(netbuf, d) + 2048 <= DescAddr(netbuf, e)
  {}
}
