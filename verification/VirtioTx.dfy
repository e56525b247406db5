/**
 The virtio transmit queue as a state machine. The driver writes a free descriptor, publishes it in
 the avail ring, and later reaps it from the used ring; the device takes published descriptors in
 order and returns each of them once, in any order. Any number of enqueues may be under way. Here a claim (finding
 a free descriptor and writing it), a publication and a reaping are one step each, and all steps interleave freely;
 TxInterrupts takes claims and publications apart.
 */
module VirtioTx {
  import opened VirtqRing

  /** Who owns a descriptor. `t` counts publications, `r` counts returns. */
  datatype Place =
    | Free
    | Written
    | Avail(t: nat)
    | Flight(t: nat)
    | Used(r: nat, t: nat)

  datatype Tx = Tx(
    // shared memory and driver
    size: int,
    addr: seq<int>,       // descriptor table: buffer address, 0 when free
    avail: seq<int>,
    availIdx: int,
    used: seq<int>,
    usedIdx: int,
    lastUsed: int,
    written: set<int>,    // descriptors written but not yet published
    // device
    devIdx: int,
    flight: set<int>,
    // history
    sent: seq<int>,       // frames published, in order
    desc: seq<int>,       // the descriptor of each of them
    seen: seq<int>,       // frames the device has read, in order
    returned: seq<nat>,   // publications returned, in order
    freed: seq<int>,      // frames given back to the page allocator, in order
    place: seq<Place>)

  function Init(n: nat): Tx {
    Tx(n, seq(n, _ => 0), seq(n, _ => 0), 0, seq(n, _ => 0), 0, 0, {}, 0, {},
       [], [], [], [], [], seq(n, _ => Free))
  }

  // ---------- steps ----------

  predicate CanWrite(s: Tx, d: int, frame: int) {
    0 <= d < |s.addr| == |s.place| && s.addr[d] == 0 && frame != 0
  }

  /** The driver fills in a descriptor, which should be free. */
  function Write(s: Tx, d: int, frame: int): Tx
    requires 0 <= d < |s.addr| == |s.place|
  {
    s.(addr := s.addr[d := frame], written := s.written + {d}, place := s.place[d := Written])
  }

  predicate CanPublish(s: Tx, d: int) {
    d in s.written && 0 <= d < |s.addr| == |s.place| && 0 < s.size == |s.avail|
  }

  /** virtioq_enqueue: the descriptor goes into the next avail slot and the index moves on. */
  function Publish(s: Tx, d: int): Tx
    requires CanPublish(s, d)
  {
    s.(avail := s.avail[s.availIdx % s.size := d], availIdx := (s.availIdx + 1) % WRAP, written := s.written - {d},
       sent := s.sent + [s.addr[d]], desc := s.desc + [d], place := s.place[d := Avail(|s.sent|)])
  }

  predicate CanTake(s: Tx) {
    s.devIdx != s.availIdx && 0 < s.size == |s.avail| &&
    0 <= s.avail[s.devIdx % s.size] < |s.addr| == |s.place|
  }

  /** The device reads the next published descriptor. */
  function Take(s: Tx): Tx
    requires CanTake(s)
  {
    var d := s.avail[s.devIdx % s.size];
    s.(devIdx := (s.devIdx + 1) % WRAP, flight := s.flight + {d}, seen := s.seen + [s.addr[d]],
       place := s.place[d := Flight(|s.seen|)])
  }

  predicate CanReturn(s: Tx, d: int) {
    d in s.flight && 0 < s.size == |s.used| && 0 <= d < |s.place| && s.place[d].Flight?
  }

  /** The device gives back any descriptor it holds. */
  function Return(s: Tx, d: int): Tx
    requires CanReturn(s, d)
  {
    s.(used := s.used[s.usedIdx % s.size := d], usedIdx := (s.usedIdx + 1) % WRAP, flight := s.flight - {d},
       returned := s.returned + [s.place[d].t], place := s.place[d := Used(|s.returned|, s.place[d].t)])
  }

  predicate CanReap(s: Tx) {
    s.lastUsed != s.usedIdx && 0 < s.size == |s.used| &&
    0 <= s.used[s.lastUsed % s.size] < |s.addr| == |s.place|
  }

  /** One round of the poll loop: free the frame and mark its descriptor free. */
  function Reap(s: Tx): Tx
    requires CanReap(s)
  {
    var d := s.used[s.lastUsed % s.size];
    s.(addr := s.addr[d := 0], lastUsed := (s.lastUsed + 1) % WRAP, freed := s.freed + [s.addr[d]],
       place := s.place[d := Free])
  }

  // ---------- invariant ----------

  function FreeSet(place: seq<Place>): set<int> {
    set d | 0 <= d < |place| && place[d].Free?
  }

  /** The place of descriptor `d` agrees with the rings and the descriptor table. */
  predicate PlaceOk(s: Tx, d: int)
    requires 0 <= d < |s.place| && |s.addr| == |s.place| && |s.sent| == |s.desc|
    requires 0 < s.size == |s.avail| == |s.used|
  {
    match s.place[d]
    case Free => s.addr[d] == 0 && d !in s.written && d !in s.flight
    case Written => s.addr[d] != 0 && d in s.written && d !in s.flight
    case Avail(t) =>
      && |s.seen| <= t < |s.sent| && s.avail[t % s.size] == d && s.desc[t] == d
      && s.addr[d] == s.sent[t] != 0 && d !in s.written && d !in s.flight
    case Flight(t) =>
      && t < |s.seen| <= |s.sent| && t !in s.returned && s.desc[t] == d
      && s.addr[d] == s.sent[t] != 0 && d !in s.written && d in s.flight
    case Used(r, t) =>
      && |s.freed| <= r < |s.returned| && s.returned[r] == t < |s.seen| <= |s.sent| && s.used[r % s.size] == d
      && s.desc[t] == d && s.addr[d] == s.sent[t] != 0 && d !in s.written && d !in s.flight
  }

  predicate AvailOk(s: Tx, t: int)
    requires 0 <= t && 0 < s.size == |s.avail|
  {
    0 <= s.avail[t % s.size] < |s.place| && s.place[s.avail[t % s.size]] == Avail(t)
  }

  predicate UsedOk(s: Tx, r: int)
    requires 0 <= r < |s.returned| && 0 < s.size == |s.used|
  {
    0 <= s.used[r % s.size] < |s.place| && s.place[s.used[r % s.size]] == Used(r, s.returned[r])
  }

  /** Publication `t` has been reclaimed, or is still where its descriptor is. */
  predicate Accounted(s: Tx, t: int)
    requires 0 <= t < |s.desc| && |s.freed| <= |s.returned|
  {
    t in s.returned[..|s.freed|] ||
    (0 <= s.desc[t] < |s.place| && match s.place[s.desc[t]]
                                   case Avail(u) => u == t
                                   case Flight(u) => u == t
                                   case Used(_, u) => u == t
                                   case _ => false)
  }

  predicate ReturnedOk(s: Tx, r: int)
    requires 0 <= r < |s.returned|
  {
    s.returned[r] < |s.seen| && s.returned[r] !in s.returned[..r] &&
    (r < |s.freed| && s.returned[r] < |s.sent| ==> s.freed[r] == s.sent[s.returned[r]])
  }

  ghost predicate Shape(s: Tx) {
    && GoodSize(s.size) && |s.addr| == |s.avail| == |s.used| == |s.place| == s.size
    && |s.freed| <= |s.returned| <= |s.seen| <= |s.sent| == |s.desc|
    && s.availIdx == |s.sent| % WRAP && s.devIdx == |s.seen| % WRAP
    && s.usedIdx == |s.returned| % WRAP && s.lastUsed == |s.freed| % WRAP
    && s.seen == s.sent[..|s.seen|]
    && |s.flight| == |s.seen| - |s.returned|
    && |FreeSet(s.place)| + |s.written| + (|s.sent| - |s.freed|) == s.size
  }

  ghost predicate Inv(s: Tx) {
    && Shape(s)
    && (forall d :: 0 <= d < s.size ==> PlaceOk(s, d))
    && (forall t :: |s.seen| <= t < |s.sent| ==> AvailOk(s, t))
    && (forall r :: |s.freed| <= r < |s.returned| ==> UsedOk(s, r))
    && (forall d :: d in s.flight ==> 0 <= d < s.size && s.place[d].Flight?)
    && (forall d :: d in s.written ==> 0 <= d < s.size && s.place[d] == Written)
    && (forall t :: 0 <= t < |s.sent| ==> Accounted(s, t))
    && (forall r :: 0 <= r < |s.returned| ==> ReturnedOk(s, r))
  }

  lemma FreeSetWithout(p: seq<Place>, d: int, q: Place)
    requires 0 <= d < |p| && p[d].Free? && !q.Free?
    ensures |FreeSet(p[d := q])| == |FreeSet(p)| - 1
  {
    assert FreeSet(p) == FreeSet(p[d := q]) + {d};
  }

  lemma FreeSetSame(p: seq<Place>, d: int, q: Place)
    requires 0 <= d < |p| && !p[d].Free? && !q.Free?
    ensures FreeSet(p[d := q]) == FreeSet(p)
  {}

  // ---------- every step keeps the invariant ----------

  lemma InitInv(n: nat)
    requires GoodSize(n)
    ensures Inv(Init(n))
  {
    AllFree(n);
    assert Shape(Init(n));
  }

  lemma {:induction false} AllFree(n: nat)
    ensures |FreeSet(seq(n, _ => Free))| == n
  {
    if n > 0 {
      AllFree(n - 1);
      assert FreeSet(seq(n, _ => Free)) == FreeSet(seq(n - 1, _ => Free)) + {n - 1};
    }
  }

  lemma WriteInv(s: Tx, d: int, frame: int)
    requires Inv(s) && CanWrite(s, d, frame)
    ensures Inv(Write(s, d, frame))
  {
    var s' := Write(s, d, frame);
    assert PlaceOk(s, d);
    FreeSetWithout(s.place, d, Written);
    forall e | 0 <= e < s.size ensures PlaceOk(s', e) { assert PlaceOk(s, e); }
    forall t | |s.seen| <= t < |s.sent| ensures AvailOk(s', t) { assert AvailOk(s, t); }
    forall r | |s.freed| <= r < |s.returned| ensures UsedOk(s', r) { assert UsedOk(s, r); }
    forall t | 0 <= t < |s.sent| ensures Accounted(s', t) { assert Accounted(s, t); }
    forall r | 0 <= r < |s.returned| ensures ReturnedOk(s', r) { assert ReturnedOk(s, r); }
  }

  lemma PublishRoom(s: Tx, d: int)
    requires Inv(s) && CanPublish(s, d)
    ensures |s.sent| - |s.seen| < s.size && 0 <= d < s.size && s.place[d] == Written && s.addr[d] != 0
    ensures s.availIdx % s.size == |s.sent| % s.size
  {
    assert s.written == (s.written - {d}) + {d};
    assert PlaceOk(s, d);
    WrappedSlot(s.size, |s.sent|);
  }

  lemma PublishInv(s: Tx, d: int)
    requires Inv(s) && CanPublish(s, d)
    ensures Inv(Publish(s, d))
  {
    var s' := Publish(s, d);
    PublishRoom(s, d);
    assert s.written == s'.written + {d};
    WrapNext(|s.sent|);
    FreeSetSame(s.place, d, Avail(|s.sent|));
    assert s'.seen == s'.sent[..|s'.seen|];
    forall e | 0 <= e < s.size ensures PlaceOk(s', e) { PublishPlace(s, d, e); }
    forall t | |s.seen| <= t < |s'.sent| ensures AvailOk(s', t) { PublishAvail(s, d, t); }
    forall r | |s.freed| <= r < |s.returned| ensures UsedOk(s', r) { assert UsedOk(s, r); }
    forall t | 0 <= t < |s'.sent| ensures Accounted(s', t) { assert t < |s.sent| ==> Accounted(s, t); }
    forall r | 0 <= r < |s.returned| ensures ReturnedOk(s', r) { assert ReturnedOk(s, r); }
  }

  lemma PublishPlace(s: Tx, d: int, e: int)
    requires Inv(s) && CanPublish(s, d) && 0 <= e < s.size
    ensures PlaceOk(Publish(s, d), e)
  {
    assert PlaceOk(s, e);
    PublishRoom(s, d);
    if s.place[e].Avail? {
      DistinctSlots(s.size, s.place[e].t, |s.sent|);
    }
  }

  lemma PublishAvail(s: Tx, d: int, t: int)
    requires Inv(s) && CanPublish(s, d) && |s.seen| <= t <= |s.sent|
    ensures AvailOk(Publish(s, d), t)
  {
    PublishRoom(s, d);
    if t < |s.sent| {
      assert AvailOk(s, t);
      DistinctSlots(s.size, t, |s.sent|);
    }
  }

  lemma TakeNext(s: Tx)
    requires Inv(s) && CanTake(s)
    ensures |s.seen| < |s.sent| && s.avail[s.devIdx % s.size] == s.avail[|s.seen| % s.size]
    ensures var d := s.avail[|s.seen| % s.size];
            0 <= d < s.size && s.place[d] == Avail(|s.seen|) && s.addr[d] == s.sent[|s.seen|] != 0
  {
    WrappedSlot(s.size, |s.seen|);
    assert AvailOk(s, |s.seen|);
    assert PlaceOk(s, s.avail[|s.seen| % s.size]);
  }

  lemma TakeShape(s: Tx)
    requires Inv(s) && CanTake(s)
    ensures Shape(Take(s))
  {
    var s', d := Take(s), s.avail[s.devIdx % s.size];
    TakeNext(s);
    WrapNext(|s.seen|);
    FreeSetSame(s.place, d, Flight(|s.seen|));
    assert PlaceOk(s, d);
    assert s'.seen == s'.sent[..|s'.seen|];
  }

  lemma TakeInv(s: Tx)
    requires Inv(s) && CanTake(s)
    ensures Inv(Take(s))
  {
    var s' := Take(s);
    TakeNext(s);
    TakeShape(s);
    forall e | 0 <= e < s.size ensures PlaceOk(s', e) { TakePlace(s, e); }
    forall t | |s'.seen| <= t < |s'.sent| ensures AvailOk(s', t) { assert AvailOk(s, t); }
    forall r | |s.freed| <= r < |s.returned| ensures UsedOk(s', r) { assert UsedOk(s, r); }
    forall t | 0 <= t < |s'.sent| ensures Accounted(s', t) { assert Accounted(s, t); }
    forall r | 0 <= r < |s.returned| ensures ReturnedOk(s', r) { assert ReturnedOk(s, r); }
  }

  lemma TakePlace(s: Tx, e: int)
    requires Inv(s) && CanTake(s) && 0 <= e < s.size
    ensures PlaceOk(Take(s), e)
  {
    TakeNext(s);
    assert PlaceOk(s, e);
    NotYetReturned(s, |s.seen|);
  }

  /** What the device has not seen yet it cannot have returned. */
  lemma NotYetReturned(s: Tx, t: nat)
    requires Inv(s) && |s.seen| <= t
    ensures t !in s.returned
  {
    forall r | 0 <= r < |s.returned| ensures s.returned[r] < |s.seen| {
      assert ReturnedOk(s, r);
    }
  }

  lemma ReturnRoom(s: Tx, d: int)
    requires Inv(s) && CanReturn(s, d)
    ensures |s.returned| < |s.seen| && |s.returned| - |s.freed| < s.size && s.usedIdx % s.size == |s.returned| % s.size
  {
    assert |s.flight| >= 1 by { assert s.flight == (s.flight - {d}) + {d}; }
    WrappedSlot(s.size, |s.returned|);
  }

  lemma ReturnInv(s: Tx, d: int)
    requires Inv(s) && CanReturn(s, d)
    ensures Inv(Return(s, d))
  {
    var s' := Return(s, d);
    ReturnRoom(s, d);
    WrapNext(|s.returned|);
    FreeSetSame(s.place, d, s'.place[d]);
    assert PlaceOk(s, d);
    forall e | 0 <= e < s.size ensures PlaceOk(s', e) { ReturnPlace(s, d, e); }
    forall t | |s'.seen| <= t < |s'.sent| ensures AvailOk(s', t) { assert AvailOk(s, t); }
    forall r | |s.freed| <= r < |s'.returned| ensures UsedOk(s', r) { ReturnUsed(s, d, r); }
    forall t | 0 <= t < |s'.sent| ensures Accounted(s', t) { ReturnAccounted(s, d, t); }
    forall r | 0 <= r < |s'.returned| ensures ReturnedOk(s', r) { ReturnReturned(s, d, r); }
  }

  lemma ReturnPlace(s: Tx, d: int, e: int)
    requires Inv(s) && CanReturn(s, d) && 0 <= e < s.size
    ensures PlaceOk(Return(s, d), e)
  {
    ReturnRoom(s, d);
    assert PlaceOk(s, d);
    assert PlaceOk(s, e);
    if s.place[e].Used? {
      DistinctSlots(s.size, s.place[e].r, |s.returned|);
    }
  }

  lemma ReturnUsed(s: Tx, d: int, r: int)
    requires Inv(s) && CanReturn(s, d) && |s.freed| <= r <= |s.returned|
    ensures UsedOk(Return(s, d), r)
  {
    ReturnRoom(s, d);
    if r < |s.returned| {
      assert UsedOk(s, r);
      DistinctSlots(s.size, r, |s.returned|);
    }
  }

  lemma ReturnAccounted(s: Tx, d: int, t: int)
    requires Inv(s) && CanReturn(s, d) && 0 <= t < |s.sent|
    ensures Accounted(Return(s, d), t)
  {
    assert Accounted(s, t) && PlaceOk(s, d);
    assert Return(s, d).returned[..|s.freed|] == s.returned[..|s.freed|];
  }

  lemma ReturnReturned(s: Tx, d: int, r: int)
    requires Inv(s) && CanReturn(s, d) && 0 <= r <= |s.returned|
    ensures ReturnedOk(Return(s, d), r)
  {
    var s' := Return(s, d);
    assert PlaceOk(s, d);
    assert s'.returned[..r] == s.returned[..r];
    if r < |s.returned| {
      assert ReturnedOk(s, r);
    } else {
      assert s.returned[..r] == s.returned;
    }
  }

  lemma ReapNext(s: Tx)
    requires Inv(s) && CanReap(s)
    ensures |s.freed| < |s.returned| && s.used[s.lastUsed % s.size] == s.used[|s.freed| % s.size]
    ensures var d, t := s.used[|s.freed| % s.size], s.returned[|s.freed|];
            && 0 <= d < s.size && s.place[d] == Used(|s.freed|, t)
            && t < |s.sent| && s.addr[d] == s.sent[t] != 0 && s.desc[t] == d
  {
    WrappedSlot(s.size, |s.freed|);
    assert UsedOk(s, |s.freed|);
    assert PlaceOk(s, s.used[|s.freed| % s.size]);
  }

  lemma ReapInv(s: Tx)
    requires Inv(s) && CanReap(s)
    ensures Inv(Reap(s))
  {
    var s', d := Reap(s), s.used[s.lastUsed % s.size];
    ReapNext(s);
    WrapNext(|s.freed|);
    FreeSetWithout(s'.place, d, s.place[d]);
    assert s'.place[d := s.place[d]] == s.place;
    assert PlaceOk(s, d);
    forall e | 0 <= e < s.size ensures PlaceOk(s', e) { assert PlaceOk(s, e); }
    forall t | |s'.seen| <= t < |s'.sent| ensures AvailOk(s', t) { assert AvailOk(s, t); }
    forall r | |s'.freed| <= r < |s'.returned| ensures UsedOk(s', r) { assert UsedOk(s, r); }
    forall t | 0 <= t < |s'.sent| ensures Accounted(s', t) { ReapAccounted(s, t); }
    forall r | 0 <= r < |s'.returned| ensures ReturnedOk(s', r) { assert ReturnedOk(s, r); }
  }

  lemma ReapAccounted(s: Tx, t: int)
    requires Inv(s) && CanReap(s) && 0 <= t < |s.sent|
    ensures Accounted(Reap(s), t)
  {
    var n := |s.freed|;
    ReapNext(s);
    assert Accounted(s, t);
    assert s.returned[..n + 1] == s.returned[..n] + [s.returned[n]];
  }

  // ---------- runs ----------

  ghost predicate DriverStep(s: Tx, s': Tx) {
    || (exists d, frame :: CanWrite(s, d, frame) && s' == Write(s, d, frame))
    || (exists d :: CanPublish(s, d) && s' == Publish(s, d))
    || (CanReap(s) && s' == Reap(s))
  }

  ghost predicate DeviceStep(s: Tx, s': Tx) {
    || (CanTake(s) && s' == Take(s))
    || (exists d :: CanReturn(s, d) && s' == Return(s, d))
  }

  ghost predicate Step(s: Tx, s': Tx) {
    DriverStep(s, s') || DeviceStep(s, s')
  }

  lemma StepInv(s: Tx, s': Tx)
    requires Inv(s) && Step(s, s')
    ensures Inv(s')
  {
    if d, frame :| CanWrite(s, d, frame) && s' == Write(s, d, frame) {
      WriteInv(s, d, frame);
    } else if d :| CanPublish(s, d) && s' == Publish(s, d) {
      PublishInv(s, d);
    } else if CanReap(s) && s' == Reap(s) {
      ReapInv(s);
    } else if CanTake(s) && s' == Take(s) {
      TakeInv(s);
    } else {
      var d :| CanReturn(s, d) && s' == Return(s, d);
      ReturnInv(s, d);
    }
  }

  ghost predicate StepAt(tr: seq<Tx>, i: int)
    requires 0 <= i < |tr| - 1
  {
    Step(tr[i], tr[i + 1])
  }

  /** A run: any interleaving of steps. */
  ghost predicate IsRun(tr: seq<Tx>, s: Tx, s': Tx) {
    tr != [] && tr[0] == s && tr[|tr| - 1] == s' && forall i :: 0 <= i < |tr| - 1 ==> StepAt(tr, i)
  }

  ghost predicate Reaches(s: Tx, s': Tx) {
    exists tr :: IsRun(tr, s, s')
  }

  ghost predicate DeviceStepAt(tr: seq<Tx>, i: int)
    requires 0 <= i < |tr| - 1
  {
    DeviceStep(tr[i], tr[i + 1])
  }

  /** A run of the device alone. */
  ghost predicate IsDeviceRun(tr: seq<Tx>, s: Tx, s': Tx) {
    tr != [] && tr[0] == s && tr[|tr| - 1] == s' && forall i :: 0 <= i < |tr| - 1 ==> DeviceStepAt(tr, i)
  }

  lemma {:induction false} RunInv(tr: seq<Tx>, s: Tx, s': Tx, k: nat)
    requires IsRun(tr, s, s') && Inv(s) && k < |tr|
    ensures Inv(tr[k])
  {
    if k > 0 {
      RunInv(tr, s, s', k - 1);
      assert StepAt(tr, k - 1);
      StepInv(tr[k - 1], tr[k]);
    }
  }

  /** The invariant holds in every state that any run of driver and device can reach. */
  lemma AllRunsInv(n: nat, s: Tx)
    requires GoodSize(n) && Reaches(Init(n), s)
    ensures Inv(s)
  {
    InitInv(n);
    var tr :| IsRun(tr, Init(n), s);
    RunInv(tr, Init(n), s, |tr| - 1);
  }

  lemma ReachSelf(s: Tx)
    ensures Reaches(s, s)
  {
    assert IsRun([s], s, s);
  }

  lemma ReachStep(s: Tx, u: Tx, s': Tx)
    requires Reaches(s, u) && Step(u, s')
    ensures Reaches(s, s')
  {
    var tr :| IsRun(tr, s, u);
    var tr' := tr + [s'];
    forall i | 0 <= i < |tr'| - 1 ensures StepAt(tr', i) {
      if i < |tr| - 1 { assert StepAt(tr, i); }
    }
    assert IsRun(tr', s, s');
  }

  lemma {:induction false} ReachRun(s0: Tx, tr: seq<Tx>, s: Tx, s': Tx, k: nat)
    requires Reaches(s0, s) && IsRun(tr, s, s') && k < |tr|
    ensures Reaches(s0, tr[k])
  {
    if k > 0 {
      ReachRun(s0, tr, s, s', k - 1);
      assert StepAt(tr, k - 1);
      ReachStep(s0, tr[k - 1], tr[k]);
    }
  }

  lemma {:induction false} ReachDevice(s0: Tx, tr: seq<Tx>, s: Tx, s': Tx, k: nat)
    requires Reaches(s0, s) && IsDeviceRun(tr, s, s') && k < |tr|
    ensures Reaches(s0, tr[k])
  {
    if k > 0 {
      ReachDevice(s0, tr, s, s', k - 1);
      assert DeviceStepAt(tr, k - 1);
      ReachStep(s0, tr[k - 1], tr[k]);
    }
  }

  /** The device touches neither the descriptor table nor anything the driver writes. */
  lemma {:induction false} DeviceFrame(tr: seq<Tx>, s: Tx, s': Tx, k: nat)
    requires IsDeviceRun(tr, s, s') && k < |tr|
    ensures tr[k].size == s.size && tr[k].addr == s.addr && tr[k].avail == s.avail && tr[k].availIdx == s.availIdx
    ensures tr[k].lastUsed == s.lastUsed && tr[k].written == s.written && tr[k].freed == s.freed && tr[k].sent == s.sent
    ensures s.returned <= tr[k].returned
  {
    if k > 0 {
      DeviceFrame(tr, s, s', k - 1);
      assert DeviceStepAt(tr, k - 1);
    }
  }

  // ---------- what the invariant promises ----------

  /** A published descriptor keeps its buffer until the driver reaps it. */
  lemma NotRewrittenInFlight(s: Tx, s': Tx, d: int)
    requires Inv(s) && Step(s, s') && 0 <= d < s.size
    requires s.place[d].Avail? || s.place[d].Flight? || s.place[d].Used?
    ensures |s'.addr| == |s'.place| == s.size
    ensures s'.addr[d] == s.addr[d] || (s.place[d].Used? && s'.place[d].Free? && s'.addr[d] == 0)
  {
    assert PlaceOk(s, d);
    if CanReap(s) { ReapNext(s); }
    if e :| CanPublish(s, e) && s' == Publish(s, e) { PublishRoom(s, e); }
  }

  /** No step overwrites an avail slot that the device has not read yet. */
  lemma AvailNotOverwritten(s: Tx, s': Tx, t: int)
    requires Inv(s) && Step(s, s') && |s'.seen| <= t < |s.sent|
    ensures |s'.avail| == s.size && s'.avail[t % s.size] == s.avail[t % s.size]
  {
    if d :| CanPublish(s, d) && s' == Publish(s, d) {
      PublishRoom(s, d);
      if |s.seen| <= t { DistinctSlots(s.size, t, |s.sent|); }
    }
  }

  /** The device sees exactly the frames that were published, in that order. */
  lemma DeviceSeesFrames(n: nat, s: Tx)
    requires GoodSize(n) && Reaches(Init(n), s)
    ensures s.seen <= s.sent
  {
    AllRunsInv(n, s);
  }

  /** Each freed frame is a published one, and no publication is freed twice. */
  lemma ReclaimedOnce(n: nat, s: Tx, j: int)
    requires GoodSize(n) && Reaches(Init(n), s) && 0 <= j < |s.freed|
    ensures j < |s.returned| && 0 <= s.returned[j] < |s.sent| && s.freed[j] == s.sent[s.returned[j]]
    ensures forall i :: 0 <= i < j ==> s.returned[i] != s.returned[j]
  {
    AllRunsInv(n, s);
    assert ReturnedOk(s, j);
    forall i | 0 <= i < j ensures s.returned[i] != s.returned[j] { assert s.returned[i] in s.returned[..j]; }
  }

  /** Once as many frames are freed as were sent, every one of them has been, and every descriptor is free again. */
  lemma DrainedQueue(n: nat, s: Tx)
    requires GoodSize(n) && Reaches(Init(n), s) && |s.freed| == |s.sent| && s.written == {}
    ensures forall t: nat :: t < |s.sent| ==> t in s.returned
    ensures forall d :: 0 <= d < |s.addr| ==> s.addr[d] == 0
  {
    AllRunsInv(n, s);
    forall d | 0 <= d < |s.addr| ensures s.place[d].Free? && s.addr[d] == 0 {
      assert PlaceOk(s, d);
      assert s.place[d].Flight? ==> s.flight == (s.flight - {d}) + {d};
    }
    forall t: nat | t < |s.sent| ensures t in s.returned {
      assert Accounted(s, t);
    }
  }
}
