/**
 The receive side with interrupts: the consumer's enqueue is three steps (read the index, write the slot, raise the
 index), its removal from the receive list one step for each write, and the handler and the device may run between
 any two of them. The list is the real one, nodes and pointers.
 */
module RxInterrupts {
  import opened VirtqRing
  import opened VirtioRx
  import opened ReceiveList
  import ReceiveWindow

  /** Where the consumer is. */
  datatype Pc =
    | Ready
    | Slot(d: int, idx: int)                           // index read
    | Raise(d: int)                                    // slot written
    | Unlinking(k: int, cur: int, kind: Kind, j: nat)  // j writes of the removal made

  datatype Fine = Fine(s: Rx, mem: Mem, pc: Pc)

  function Start(n: int): Fine
    requires 0 < n
  {
    Fine(Init(n), Mem(-1, seq(n - 1, _ => 0), seq(n - 1, _ => 0)), Ready)
  }

  // ---------- steps ----------

  ghost predicate DeviceMoves(f: Fine, f': Fine) {
    DeviceStep(f.s, f'.s) && f' == f.(s := f'.s)
  }

  predicate Enlists(f: Fine, f': Fine) {
    && CanEnlist(f.s) && Sound(f.mem) && f.s.hand.d < |f.mem.next|
    && f' == f.(s := Enlist(f.s), mem := Append(f.mem, f.s.hand.d))
  }

  predicate Discards(f: Fine, f': Fine) {
    CanDiscard(f.s) && f' == f.(s := Discard(f.s))
  }

  predicate HandlerMoves(f: Fine, f': Fine) {
    || (CanFetch(f.s) && f' == f.(s := Fetch(f.s)))
    || (f.s.hand == Done && f' == f.(s := Advance(f.s)))
    || Enlists(f, f') || Discards(f, f')
  }

  predicate CanFind(f: Fine, k: int) {
    f.pc == Ready && CanWait(f.s, k) && f.s.queue[k] < |f.mem.next|
  }

  /** The walk has found a packet and made the tests of the removal. */
  function Find(f: Fine, k: int): Fine
    requires CanFind(f, k)
  {
    f.(pc := Unlinking(k, f.s.queue[k], KindOf(f.mem, f.s.queue[k]), 0))
  }

  predicate CanUnlink(f: Fine) {
    f.pc.Unlinking? && Sound(f.mem) && 0 <= f.pc.cur < |f.mem.next| && CanWait(f.s, f.pc.k)
  }

  function UnlinkWrite(f: Fine): Fine
    requires CanUnlink(f)
  {
    var mem := Write(f.mem, f.pc.cur, f.pc.kind, f.pc.j);
    if f.pc.j + 1 < Writes(f.pc.kind) then f.(mem := mem, pc := f.pc.(j := f.pc.j + 1))
    else Fine(Wait(f.s, f.pc.k), mem, Ready)
  }

  predicate CanBegin(f: Fine, d: int) { f.pc == Ready && CanRelease(f.s, d) }

  function Begin(f: Fine, d: int): Fine
    requires CanBegin(f, d)
  {
    f.(pc := Slot(d, f.s.availIdx))
  }

  predicate CanWriteSlot(f: Fine) { f.pc.Slot? && 0 < f.s.size == |f.s.avail| }

  function WriteSlot(f: Fine): Fine
    requires CanWriteSlot(f)
  {
    f.(s := f.s.(avail := f.s.avail[f.pc.idx % f.s.size := f.pc.d]), pc := Raise(f.pc.d))
  }

  predicate CanRaise(f: Fine) { f.pc.Raise? && CanRelease(f.s, f.pc.d) }

  /** The index is raised, whatever its slot holds. */
  function Raised(s: Rx, d: int): Rx
    requires CanRelease(s, d)
  {
    Release(s, d).(avail := s.avail)
  }

  function RaiseIdx(f: Fine): Fine
    requires CanRaise(f)
  {
    f.(s := Raised(f.s, f.pc.d), pc := Ready)
  }

  ghost predicate ConsumerMoves(f: Fine, f': Fine) {
    || (exists k :: CanFind(f, k) && f' == Find(f, k))
    || (CanUnlink(f) && f' == UnlinkWrite(f))
    || (exists d :: CanBegin(f, d) && f' == Begin(f, d))
    || (CanWriteSlot(f) && f' == WriteSlot(f))
    || (CanRaise(f) && f' == RaiseIdx(f))
  }

  ghost predicate Moves(f: Fine, f': Fine) {
    DeviceMoves(f, f') || HandlerMoves(f, f') || ConsumerMoves(f, f')
  }

  /** The handler appends at a bad moment of a removal. */
  predicate BadAppend(f: Fine, f': Fine) {
    Enlists(f, f') && f.pc.Unlinking? && !ReceiveWindow.Harmless(|f.s.queue|, f.pc.k, f.pc.j)
  }

  /** The handler recycles a buffer while the consumer does, or appends at a bad moment of a removal. */
  predicate Harm(f: Fine, f': Fine) {
    (Discards(f, f') && (f.pc.Slot? || f.pc.Raise?)) || BadAppend(f, f')
  }

  predicate SlotIs(s: Rx, t: int, idx: int) { 0 < s.size && t % s.size == idx % s.size }

  /** The slot of this index is published, and the device has not read it. */
  ghost predicate Unread(s: Rx, idx: int) { exists t :: s.taken <= t < s.published && SlotIs(s, t, idx) }

  /** The consumer overwrites a slot that the device is still to read. */
  ghost predicate BadWrite(f: Fine, f': Fine) {
    CanWriteSlot(f) && f' == WriteSlot(f) && Unread(f.s, f.pc.idx)
  }

  /** The consumer publishes a slot that does not hold its buffer. */
  predicate BadRaise(f: Fine, f': Fine) {
    CanRaise(f) && f' == RaiseIdx(f) && f.s.avail[f.s.availIdx % f.s.size] != f.pc.d
  }

  ghost predicate Bad(f: Fine, f': Fine) { BadAppend(f, f') || BadWrite(f, f') || BadRaise(f, f') }

  // ---------- invariant ----------

  /** The list is the queue, with the first j writes of a removal made. */
  ghost predicate PartlyCut(m0: Mem, mem: Mem, q: seq<int>, cur: int, kind: Kind, j: nat) {
    && Sound(m0) && |m0.next| == |mem.next| && Holds(m0, q) && 0 <= cur < |m0.next|
    && kind == KindOf(m0, cur) && mem == Cut(m0, cur, kind, 0, j)
  }

  ghost predicate ListOk(f: Fine) {
    && Sound(f.mem) && |f.mem.next| == f.s.size - 1
    && match f.pc
       case Unlinking(k, cur, kind, j) =>
         && 0 <= k < |f.s.queue| && cur == f.s.queue[k] && j < Writes(kind)
         && exists m0 :: PartlyCut(m0, f.mem, f.s.queue, cur, kind, j)
       case _ => Holds(f.mem, f.s.queue)
  }

  /** Buffers and list are in order, whatever the consumer is about to write. */
  ghost predicate InOrder(f: Fine) {
    Inv(f.s) && ListOk(f) && (f.pc.Slot? || f.pc.Raise? ==> f.pc.d in f.s.held)
  }

  /** What the consumer is about to write is up to date. */
  ghost predicate RingOk(f: Fine) {
    match f.pc
    case Slot(d, idx) => idx == f.s.availIdx
    case Raise(d) => 0 < f.s.size == |f.s.avail| && f.s.avail[f.s.availIdx % f.s.size] == d
    case _ => true
  }

  lemma StartInOrder(n: int)
    requires GoodSize(n)
    ensures InOrder(Start(n)) && RingOk(Start(n))
  {
    InitInv(n);
    var f := Start(n);
    forall i | 0 <= i < n - 1 ensures Inside(f.mem, i) {}
  }

  lemma DeviceFine(f: Fine, f': Fine)
    requires InOrder(f) && DeviceMoves(f, f')
    ensures InOrder(f')
  {
    StepInv(f.s, f'.s);
  }

  /** Steps of the handler that leave the list alone. */
  lemma HandlerRing(f: Fine, f': Fine)
    requires InOrder(f) && HandlerMoves(f, f') && !Enlists(f, f')
    ensures InOrder(f')
  {
    StepInv(f.s, f'.s);
  }

  /** Appending before or after the first j writes, where it does no harm. */
  lemma AppendPartly(m0: Mem, mem: Mem, q: seq<int>, k: int, kind: Kind, j: nat, d: int)
    requires 0 <= k < |q| && PartlyCut(m0, mem, q, q[k], kind, j) && j < Writes(kind) && Sound(mem)
    requires 0 <= d < |m0.next| && d !in q && ReceiveWindow.Harmless(|q|, k, j)
    ensures PartlyCut(Append(m0, d), Append(mem, d), q + [d], q[k], kind, j)
  {
    AppendSound(m0, d);
    AppendHolds(m0, q, d);
    CutHolds(m0, q, k);
    CutHolds(Append(m0, d), q + [d], k);
    ReceiveWindow.CutFrom(m0, q[k], kind, 2);
    ReceiveWindow.CutFrom(Append(m0, d), q[k], kind, 2);
    if j == 1 { ReceiveWindow.Commute(m0, q, k, d); }
  }

  lemma EnlistFine(f: Fine, f': Fine)
    requires InOrder(f) && Enlists(f, f') && !BadAppend(f, f')
    ensures InOrder(f')
  {
    EnlistInv(f.s);
    var d := f.s.hand.d;
    assert PlaceOk(f.s, d);
    AppendSound(f.mem, d);
    if f.pc.Unlinking? {
      var pc := f.pc;
      var m0 :| PartlyCut(m0, f.mem, f.s.queue, pc.cur, pc.kind, pc.j);
      AppendPartly(m0, f.mem, f.s.queue, pc.k, pc.kind, pc.j, d);
      assert PartlyCut(Append(m0, d), f'.mem, f'.s.queue, pc.cur, pc.kind, pc.j);
    } else {
      AppendHolds(f.mem, f.s.queue, d);
    }
  }

  lemma FindFine(f: Fine, k: int)
    requires InOrder(f) && CanFind(f, k)
    ensures InOrder(Find(f, k))
  {
    var cur := f.s.queue[k];
    CutHolds(f.mem, f.s.queue, k);
    assert PartlyCut(f.mem, f.mem, f.s.queue, cur, KindOf(f.mem, cur), 0);
  }

  lemma {:induction false} CutOne(m: Mem, cur: int, kind: Kind, from: nat, j: nat)
    requires Sound(m) && 0 <= cur < |m.next| && from <= j
    ensures Cut(m, cur, kind, from, j + 1) == Write(Cut(m, cur, kind, from, j), cur, kind, j)
    decreases j - from
  {
    WriteSound(m, cur, kind, from);
    if from < j { CutOne(Write(m, cur, kind, from), cur, kind, from + 1, j); }
  }

  lemma UnlinkFine(f: Fine)
    requires InOrder(f) && CanUnlink(f)
    ensures InOrder(UnlinkWrite(f))
  {
    var pc, f' := f.pc, UnlinkWrite(f);
    var m0 :| PartlyCut(m0, f.mem, f.s.queue, pc.cur, pc.kind, pc.j);
    CutOne(m0, pc.cur, pc.kind, 0, pc.j);
    WriteSound(f.mem, pc.cur, pc.kind, pc.j);
    if pc.j + 1 < Writes(pc.kind) {
      assert PartlyCut(m0, f'.mem, f.s.queue, pc.cur, pc.kind, pc.j + 1);
    } else {
      WaitInv(f.s, pc.k);
      CutHolds(m0, f.s.queue, pc.k);
    }
  }

  function Slotted(s: Rx, idx: int, d: int): Rx
    requires 0 < s.size == |s.avail|
  {
    s.(avail := s.avail[idx % s.size := d])
  }

  /** A slot may be written if the device has nothing to read there. */
  lemma SlotInv(s: Rx, idx: int, d: int)
    requires Inv(s) && !Unread(s, idx)
    ensures Inv(Slotted(s, idx, d))
  {
    var s' := Slotted(s, idx, d);
    forall t | s.taken <= t < s.published ensures AvailOk(s', t) {
      assert AvailOk(s, t);
      assert !SlotIs(s, t, idx);
    }
    forall e | 0 <= e < s.size - 1 ensures PlaceOk(s', e) {
      assert PlaceOk(s, e);
      if s.place[e].Avail? { assert !SlotIs(s, s.place[e].t, idx); }
    }
    forall r | Fetched(s) <= r < s.returned ensures UsedOk(s', r) { assert UsedOk(s, r); }
    forall i | 0 <= i < |s.queue| ensures QueueOk(s', i) { assert QueueOk(s, i); }
  }

  lemma RaiseInv(s: Rx, d: int)
    requires Inv(s) && CanRelease(s, d) && s.avail[s.availIdx % s.size] == d
    ensures Inv(Raised(s, d))
  {
    assert s.avail[s.availIdx % s.size := d] == s.avail;
    ReleaseInv(s, d);
  }

  lemma ConsumerFine(f: Fine, f': Fine)
    requires InOrder(f) && ConsumerMoves(f, f') && !Bad(f, f')
    ensures InOrder(f')
  {
    if k :| CanFind(f, k) && f' == Find(f, k) {
      FindFine(f, k);
    } else if CanUnlink(f) && f' == UnlinkWrite(f) {
      UnlinkFine(f);
    } else if CanWriteSlot(f) && f' == WriteSlot(f) {
      SlotInv(f.s, f.pc.idx, f.pc.d);
    } else if CanRaise(f) && f' == RaiseIdx(f) {
      RaiseInv(f.s, f.pc.d);
    }
  }

  /** Every step but a bad one keeps buffers and list in order. */
  lemma MoveInOrder(f: Fine, f': Fine)
    requires InOrder(f) && Moves(f, f') && !Bad(f, f')
    ensures InOrder(f') && f'.s.size == f.s.size
  {
    if DeviceMoves(f, f') {
      DeviceFine(f, f');
      StepInv(f.s, f'.s);
    } else if HandlerMoves(f, f') {
      if Enlists(f, f') { EnlistFine(f, f'); } else { HandlerRing(f, f'); }
    } else {
      ConsumerFine(f, f');
    }
  }

  /** The next slot is never one that the device is still to read, as long as somebody has a buffer in hand. */
  lemma NextSlotFree(s: Rx, d: int)
    requires Inv(s) && d in s.held
    ensures !Unread(s, s.availIdx)
  {
    assert CanPublish(s, d);
    PublishRoom(s, d);
    forall t | s.taken <= t < s.published ensures !SlotIs(s, t, s.availIdx) { DistinctSlots(s.size, t, s.published); }
  }

  /** When the handler keeps out of the consumer's way, no step is bad, and what the consumer writes stays up to
      date. */
  lemma QuietStep(f: Fine, f': Fine)
    requires InOrder(f) && RingOk(f) && Moves(f, f') && !Harm(f, f')
    ensures !Bad(f, f') && RingOk(f')
  {
    if f.pc.Slot? { NextSlotFree(f.s, f.pc.d); }
  }

  // ---------- runs ----------

  ghost predicate MoveAt(tr: seq<Fine>, i: int)
    requires 0 <= i < |tr| - 1
  {
    Moves(tr[i], tr[i + 1])
  }

  predicate QuietAt(tr: seq<Fine>, i: int)
    requires 0 <= i < |tr| - 1
  {
    !Harm(tr[i], tr[i + 1])
  }

  ghost predicate IsFineRun(tr: seq<Fine>, n: int)
    requires 0 < n
  {
    tr != [] && tr[0] == Start(n) && forall i :: 0 <= i < |tr| - 1 ==> MoveAt(tr, i)
  }

  ghost predicate BadAt(tr: seq<Fine>, i: int)
    requires 0 <= i < |tr| - 1
  {
    Bad(tr[i], tr[i + 1])
  }

  lemma {:induction false} QuietRun(tr: seq<Fine>, n: int, k: nat)
    requires GoodSize(n) && IsFineRun(tr, n) && k < |tr| && forall i :: 0 <= i < k ==> QuietAt(tr, i)
    ensures InOrder(tr[k]) && RingOk(tr[k]) && tr[k].s.size == n
  {
    if k == 0 {
      StartInOrder(n);
    } else {
      QuietRun(tr, n, k - 1);
      assert MoveAt(tr, k - 1) && QuietAt(tr, k - 1);
      QuietStep(tr[k - 1], tr[k]);
      MoveInOrder(tr[k - 1], tr[k]);
    }
  }

  /**
   In every run, as long as the handler kept out of the consumer's way, every buffer is in exactly one place, and
   outside a removal the list in memory is the queue.
   */
  lemma QuietConserves(tr: seq<Fine>, n: int, k: nat, d: int)
    requires GoodSize(n) && IsFineRun(tr, n) && k < |tr| && forall i :: 0 <= i < k ==> QuietAt(tr, i)
    requires 0 <= d < n - 1
    ensures Inv(tr[k].s) && tr[k].s.size == n && Conserved(tr[k].s, d)
    ensures !tr[k].pc.Unlinking? ==> Holds(tr[k].mem, tr[k].s.queue)
  {
    QuietRun(tr, n, k);
    InvConserves(tr[k].s, d);
  }

  // ---------- harm to the list ----------

  /** The removal that is going on can no longer leave the queue behind it. */
  ghost predicate BrokenList(mem: Mem, q: seq<int>, pc: Pc) {
    && Sound(mem) && pc.Unlinking? && 0 <= pc.k < |q| && pc.cur == q[pc.k] && 0 <= pc.cur < |mem.next|
    && match pc.kind
       case Only => pc.k == 0 && |q| > 1
       case First =>
         && pc.k == 0 && 1 <= pc.j < 3 && |q| > 2 && mem.rxq == pc.cur && 0 <= q[1] < |mem.next|
         && mem.prev[q[1]] in q[..|q| - 1]
       case Other =>
         && 0 < pc.k < |q| - 1 && pc.j == 1 && mem.rxq == q[0] && 0 <= q[0] < |mem.next|
         && mem.prev[pc.cur] == q[pc.k - 1] && mem.next[pc.cur] == q[0] && mem.prev[q[0]] != pc.cur
  }

  ghost predicate Broken(f: Fine) {
    Inv(f.s) && |f.mem.next| == f.s.size - 1 && BrokenList(f.mem, f.s.queue, f.pc)
  }

  /** An append at a bad moment breaks the removal. */
  lemma HarmBreaks(f: Fine, f': Fine)
    requires InOrder(f) && BadAppend(f, f')
    ensures Broken(f')
  {
    EnlistInv(f.s);
    assert PlaceOk(f.s, f.s.hand.d);
    assert QueueOk(f.s, f.pc.k);
    var m0 :| PartlyCut(m0, f.mem, f.s.queue, f.pc.cur, f.pc.kind, f.pc.j);
    BreakList(m0, f.mem, f.s.queue, f.pc, f.s.hand.d);
  }

  lemma BreakList(m0: Mem, mem: Mem, q: seq<int>, pc: Pc, d: int)
    requires pc.Unlinking? && 0 <= pc.k < |q| && pc.cur == q[pc.k] && pc.j < Writes(pc.kind)
    requires PartlyCut(m0, mem, q, pc.cur, pc.kind, pc.j) && Sound(mem) && 0 <= d < |mem.next| && d !in q
    requires !ReceiveWindow.Harmless(|q|, pc.k, pc.j)
    ensures BrokenList(Append(mem, d), q + [d], pc)
  {
    AppendSound(mem, d);
    CutHolds(m0, q, pc.k);
    if pc.kind == First {
      BreakFirst(m0, mem, q, pc.j, d);
    } else if pc.kind == Other {
      BreakLast(m0, mem, q, d);
    }
  }

  lemma BreakFirst(m0: Mem, mem: Mem, q: seq<int>, j: nat, d: int)
    requires |q| > 1 && PartlyCut(m0, mem, q, q[0], First, j)
    requires 1 <= j < 3 && Sound(mem) && 0 <= d < |mem.next| && d !in q
    ensures 0 <= q[1] < |mem.next| && Append(mem, d).prev[q[1]] == q[|q| - 1] && Append(mem, d).rxq == q[0]
    ensures q[|q| - 1] in (q + [d])[..|q|]
  {
    assert Link(m0.next, m0.prev, q, 0) && Link(m0.next, m0.prev, q, |q| - 1);
    Differs(q, 0, 1);
    ReceiveWindow.CutFrom(m0, q[0], First, j);
    ReceiveWindow.CutKeeps(Write(m0, q[0], First, 0), q[0], 1, j);
    assert (q + [d])[|q| - 1] == q[|q| - 1];
  }

  lemma BreakLast(m0: Mem, mem: Mem, q: seq<int>, d: int)
    requires |q| > 1 && PartlyCut(m0, mem, q, q[|q| - 1], Other, 1) && Sound(mem) && 0 <= d < |mem.next| && d !in q
    ensures var r, cur := Append(mem, d), q[|q| - 1];
            && r.rxq == q[0] && 0 <= q[0] < |r.next| && r.prev[cur] == q[|q| - 2] && r.next[cur] == q[0]
            && r.prev[q[0]] == d
  {
    var n := |q|;
    assert Link(m0.next, m0.prev, q, n - 1) && Link(m0.next, m0.prev, q, n - 2);
    Differs(q, 0, n - 1);
    Differs(q, n - 2, n - 1);
    ReceiveWindow.CutFrom(m0, q[n - 1], Other, 1);
  }

  lemma BrokenAppend(mem: Mem, q: seq<int>, pc: Pc, d: int)
    requires BrokenList(mem, q, pc) && Distinct(q) && 0 <= d < |mem.next| && d !in q
    ensures BrokenList(Append(mem, d), q + [d], pc)
  {
    AppendSound(mem, d);
    if pc.kind == First {
      Differs(q, 0, 1);
      assert q[1] in q;
      assert (q + [d])[..|q|] == q && q[..|q| - 1] <= q;
    } else if pc.kind == Other {
      Differs(q, 0, pc.k);
      assert q[0] in q;
    }
  }

  lemma NotBefore(q: seq<int>, i: int)
    requires Distinct(q) && 0 <= i < |q|
    ensures q[i] !in q[..i]
  {
    forall j | 0 <= j < i ensures q[j] != q[i] { Differs(q, i, j); }
  }

  lemma BrokenWrite(mem: Mem, q: seq<int>, pc: Pc)
    requires BrokenList(mem, q, pc) && Distinct(q) && q[0] >= 0 && q[1] >= 0
    ensures var m := Write(mem, pc.cur, pc.kind, pc.j);
            if pc.j + 1 < Writes(pc.kind) then BrokenList(m, q, pc.(j := pc.j + 1)) else !Holds(m, Without(q, pc.k))
  {
    WriteSound(mem, pc.cur, pc.kind, pc.j);
    var m, r, k := Write(mem, pc.cur, pc.kind, pc.j), Without(q, pc.k), pc.k;
    match pc.kind
    case Only =>
      assert r[0] == q[1];
    case First =>
      if pc.j == 2 {
        NotBefore(q, |q| - 1);
        assert r[0] == q[1] && r[|r| - 1] == q[|q| - 1];
        assert !Link(m.next, m.prev, r, |r| - 1);
      }
    case Other =>
      Differs(q, 0, k + 1);
      assert r[k - 1] == q[k - 1] && r[k] == q[k + 1];
      assert !Link(m.next, m.prev, r, k - 1);
  }

  lemma QueueDistinct(s: Rx)
    requires Inv(s)
    ensures Distinct(s.queue) && forall i :: 0 <= i < |s.queue| ==> s.queue[i] >= 0
  {
    forall i, j | 0 <= i < j < |s.queue| ensures Differ(s.queue, i, j) {
      assert QueueOk(s, j);
      assert s.queue[i] in s.queue[..j];
    }
    forall i | 0 <= i < |s.queue| ensures s.queue[i] >= 0 { assert QueueOk(s, i); }
  }

  /** Nothing mends a broken removal: when it is over, the list in memory is not the queue. */
  lemma BrokenStays(f: Fine, f': Fine)
    requires Broken(f) && Moves(f, f')
    ensures Broken(f') || (f'.pc == Ready && !Holds(f'.mem, f'.s.queue))
  {
    QueueDistinct(f.s);
    if DeviceMoves(f, f') {
      StepInv(f.s, f'.s);
    } else if HandlerMoves(f, f') {
      StepInv(f.s, f'.s);
      if Enlists(f, f') {
        assert PlaceOk(f.s, f.s.hand.d);
        BrokenAppend(f.mem, f.s.queue, f.pc, f.s.hand.d);
      }
    } else {
      BrokenWrite(f.mem, f.s.queue, f.pc);
      WaitInv(f.s, f.pc.k);
    }
  }

  ghost predicate UnlinkingAt(tr: seq<Fine>, i: int)
    requires 0 <= i < |tr|
  {
    tr[i].pc.Unlinking?
  }

  predicate BadAppendAt(tr: seq<Fine>, i: int)
    requires 0 <= i < |tr| - 1
  {
    BadAppend(tr[i], tr[i + 1])
  }

  /** During a removal: in order as long as nothing has done harm, and broken from then on. */
  lemma {:induction false} RemovalGoes(tr: seq<Fine>, a: nat, i: nat, harmed: bool)
    requires a <= i < |tr| && InOrder(tr[a]) && (forall k :: a <= k < i ==> MoveAt(tr, k))
    requires forall k :: a <= k <= i ==> UnlinkingAt(tr, k)
    requires harmed <==> exists k :: a <= k < i && BadAppendAt(tr, k)
    ensures if harmed then Broken(tr[i]) else InOrder(tr[i])
    decreases i
  {
    if a < i {
      var last := i - 1;
      var before := exists k :: a <= k < last && BadAppendAt(tr, k);
      RemovalGoes(tr, a, last, before);
      assert MoveAt(tr, last) && UnlinkingAt(tr, i) && UnlinkingAt(tr, last);
      assert harmed == (before || BadAppendAt(tr, last));
      RemovalStep(tr[last], tr[i], before);
    }
  }

  lemma RemovalStep(f: Fine, f': Fine, before: bool)
    requires Moves(f, f') && f.pc.Unlinking? && (if before then Broken(f) else InOrder(f))
    ensures if before then Broken(f') || (f'.pc == Ready && !Holds(f'.mem, f'.s.queue))
            else if BadAppend(f, f') then Broken(f') else InOrder(f')
  {
    if before {
      BrokenStays(f, f');
    } else if BadAppend(f, f') {
      HarmBreaks(f, f');
    } else {
      MoveInOrder(f, f');
    }
  }

  /**
   From any state that is in order, a removal that ends leaves the queue behind it if and only if no packet was
   appended at a bad moment of it.
   */
  lemma RemovalExact(tr: seq<Fine>, a: nat, b: nat)
    requires a < b < |tr| && InOrder(tr[a]) && (forall k :: a <= k < b ==> MoveAt(tr, k))
    requires (forall k :: a <= k < b ==> UnlinkingAt(tr, k)) && tr[b].pc == Ready
    ensures Holds(tr[b].mem, tr[b].s.queue) <==> forall k :: a <= k < b ==> !BadAppendAt(tr, k)
  {
    var last := b - 1;
    var harmed := exists k :: a <= k < last && BadAppendAt(tr, k);
    RemovalGoes(tr, a, last, harmed);
    assert MoveAt(tr, last) && UnlinkingAt(tr, last);
    RemovalEnds(tr[last], tr[b], harmed);
    assert !BadAppendAt(tr, last);
  }

  lemma RemovalEnds(f: Fine, f': Fine, harmed: bool)
    requires Moves(f, f') && f.pc.Unlinking? && f'.pc == Ready && (if harmed then Broken(f) else InOrder(f))
    ensures !BadAppend(f, f') && (Holds(f'.mem, f'.s.queue) <==> !harmed)
  {
    RemovalStep(f, f', harmed);
  }

  // ---------- harm to the ring ----------

  /** Writing a slot that the device is still to read loses the buffer in it. */
  lemma BadWriteLoses(f: Fine, f': Fine) returns (e: int)
    requires InOrder(f) && BadWrite(f, f')
    ensures 0 <= e < f.s.size - 1 && !Conserved(f'.s, e)
  {
    var s, s' := f.s, f'.s;
    var t :| s.taken <= t < s.published && SlotIs(s, t, f.pc.idx);
    e := s.avail[t % s.size];
    assert AvailOk(s, t);
    WhereItIs(s, e);
    assert PlaceOk(s, e) && PlaceOk(s, f.pc.d);
    forall u: nat | s'.taken <= u < s'.published ensures s'.avail[u % s.size] != e { assert AvailOk(s, u); }
    assert !InAvail(s', e);
    UsedSame(s, s', e);
  }

  lemma UsedSame(s: Rx, s': Rx, e: int)
    requires 0 < s.size == |s.used| && s'.size == s.size && s'.used == s.used
    requires s'.returned == s.returned && Fetched(s') == Fetched(s)
    ensures InUsed(s', e) == InUsed(s, e)
  {}

  /** Publishing a slot that does not hold the buffer loses the buffer. */
  lemma BadRaiseLoses(f: Fine, f': Fine)
    requires InOrder(f) && BadRaise(f, f')
    ensures 0 <= f.pc.d < f.s.size - 1 && !Conserved(f'.s, f.pc.d)
  {
    var s, s', d := f.s, f'.s, f.pc.d;
    PublishRoom(s, d);
    WhereItIs(s, d);
    assert PlaceOk(s, d);
    forall u: nat | s'.taken <= u < s'.published ensures s'.avail[u % s.size] != d {
      if u < s.published { assert AvailOk(s, u); }
    }
    assert !InAvail(s', d);
    UsedSame(s, s', d);
  }

  lemma CutNotBroken(m0: Mem, mem: Mem, q: seq<int>, pc: Pc)
    requires pc.Unlinking? && 0 <= pc.k < |q| && pc.cur == q[pc.k] && PartlyCut(m0, mem, q, pc.cur, pc.kind, pc.j)
    ensures !BrokenList(mem, q, pc)
  {
    CutHolds(m0, q, pc.k);
    if pc.kind == First && 1 <= pc.j < 3 {
      assert Link(m0.next, m0.prev, q, 0) && Link(m0.next, m0.prev, q, |q| - 1);
      ReceiveWindow.CutFrom(m0, pc.cur, First, pc.j);
      ReceiveWindow.CutKeeps(Write(m0, pc.cur, First, 0), pc.cur, 1, pc.j);
      NotBefore(q, |q| - 1);
    } else if pc.kind == Other && pc.j == 1 && pc.k < |q| - 1 {
      assert Link(m0.next, m0.prev, q, pc.k);
      ReceiveWindow.CutFrom(m0, pc.cur, Other, 1);
      Differs(q, 0, pc.k + 1);
    }
  }

  lemma ListNotBroken(f: Fine)
    requires ListOk(f)
    ensures !BrokenList(f.mem, f.s.queue, f.pc)
  {
    if f.pc.Unlinking? {
      var m0 :| PartlyCut(m0, f.mem, f.s.queue, f.pc.cur, f.pc.kind, f.pc.j);
      CutNotBroken(m0, f.mem, f.s.queue, f.pc);
    }
  }

  /** A bad step always puts something out of order. */
  lemma BadStep(f: Fine, f': Fine)
    requires InOrder(f) && Bad(f, f')
    ensures !InOrder(f')
  {
    if BadWrite(f, f') {
      var e := BadWriteLoses(f, f');
      if Inv(f'.s) { InvConserves(f'.s, e); }
    } else if BadRaise(f, f') {
      BadRaiseLoses(f, f');
      if Inv(f'.s) { InvConserves(f'.s, f.pc.d); }
    } else {
      HarmBreaks(f, f');
      if ListOk(f') { ListNotBroken(f'); }
    }
  }

  ghost predicate InOrderAt(tr: seq<Fine>, i: int)
    requires 0 <= i < |tr|
  {
    InOrder(tr[i])
  }

  /** A run is in order throughout if and only if none of its steps is bad. */
  lemma {:induction false} RunExact(tr: seq<Fine>, n: int, k: nat)
    requires GoodSize(n) && IsFineRun(tr, n) && k < |tr|
    ensures (forall i :: 0 <= i <= k ==> InOrderAt(tr, i)) <==> (forall i :: 0 <= i < k ==> !BadAt(tr, i))
  {
    if k == 0 {
      StartInOrder(n);
      assert InOrderAt(tr, 0);
    } else {
      RunExact(tr, n, k - 1);
      var last := k - 1;
      assert MoveAt(tr, last);
      if forall i :: 0 <= i <= last ==> InOrderAt(tr, i) {
        assert InOrderAt(tr, last);
        if BadAt(tr, last) { BadStep(tr[last], tr[k]); } else { MoveInOrder(tr[last], tr[k]); }
        assert BadAt(tr, last) <==> !InOrderAt(tr, k);
      }
    }
  }

  // ---------- a run that loses a buffer ----------

  lemma Extend(tr: seq<Fine>, n: int, f: Fine)
    requires 0 < n && IsFineRun(tr, n) && Moves(tr[|tr| - 1], f)
    ensures IsFineRun(tr + [f], n)
  {
    var tr' := tr + [f];
    forall i | 0 <= i < |tr'| - 1 ensures MoveAt(tr', i) { if i < |tr| - 1 { assert MoveAt(tr, i); } }
  }

  /** Four slots, three buffers, and the packet in buffer 0 on the list. */
  function OnePacket(): Fine {
    Fine(Rx(4, [0, 1, 2, 0], 3, [0, 0, 0, 0], 1, 1, Idle, [0], {}, 1, {}, 3, 1, 1, 1,
            [1, 0, 0], [0, 0, 0], [Queued, Avail(1), Avail(2)]),
         Mem(0, [0, 0, 0], [0, 0, 0]), Ready)
  }

  /** Before that: the device has returned buffer 0. */
  function Returned(): Fine {
    Fine(Rx(4, [0, 1, 2, 0], 3, [0, 0, 0, 0], 1, 0, Idle, [], {}, 1, {}, 3, 1, 1, 0,
            [0, 0, 0], [0, 0, 0], [Used(0), Avail(1), Avail(2)]),
         Mem(-1, [0, 0, 0], [0, 0, 0]), Ready)
  }

  lemma FirstReturn() returns (tr: seq<Fine>)
    ensures IsFineRun(tr, 4) && tr[|tr| - 1] == Returned()
  {
    var f0 := Start(4);
    assert f0.s.avail == [0, 1, 2, 0] && f0.s.place == [Avail(0), Avail(1), Avail(2)];
    var f1 := f0.(s := Take(f0.s));
    var f2 := f1.(s := Return(f1.s, 0));
    assert DeviceStep(f1.s, f2.s);
    tr := [f0];
    Extend(tr, 4, f1);
    tr := tr + [f1];
    Extend(tr, 4, f2);
    tr := tr + [f2];
    assert f2 == Returned();
  }

  lemma FirstPacket() returns (tr: seq<Fine>)
    ensures IsFineRun(tr, 4) && tr[|tr| - 1] == OnePacket()
  {
    tr := FirstReturn();
    var f2 := Returned();
    var f3 := f2.(s := Fetch(f2.s));
    assert f3.s.hand == Got(0);
    assert forall i :: 0 <= i < 3 ==> Inside(f3.mem, i);
    var f4 := f3.(s := Enlist(f3.s), mem := Append(f3.mem, 0));
    var f5 := f4.(s := Advance(f4.s));
    Extend(tr, 4, f3);
    tr := tr + [f3];
    Extend(tr, 4, f4);
    tr := tr + [f4];
    Extend(tr, 4, f5);
    tr := tr + [f5];
    assert f5 == OnePacket();
  }

  /** From then on: a packet comes in buffer 1, and the handler has it in hand. */
  lemma SecondPacket(tr: seq<Fine>, f: Fine) returns (tr': seq<Fine>, f': Fine)
    requires IsFineRun(tr, 4) && tr[|tr| - 1] == f && f.s.hand == Idle && f.s.size == 4 && f.s.avail == [0, 1, 2, 0]
    requires f.s.availIdx == 3 && f.s.devIdx == 1 && f.s.used == [0, 0, 0, 0] && f.s.usedIdx == 1 && f.s.lastUsed == 1
    requires |f.s.place| == |f.s.got| == 3 && f.s.flight == {}
    ensures IsFineRun(tr', 4) && tr'[|tr'| - 1] == f'
    ensures f' == f.(s := f.s.(used := [0, 1, 0, 0], usedIdx := 2, devIdx := 2, hand := Got(1), taken := f.s.taken + 1,
                               returned := f.s.returned + 1, got := f.s.got[1 := f.s.got[1] + 1],
                               place := f.s.place[1 := InHand]))
  {
    var f1 := f.(s := Take(f.s));
    var f2 := f1.(s := Return(f1.s, 1));
    assert DeviceStep(f1.s, f2.s);
    f' := f2.(s := Fetch(f2.s));
    Extend(tr, 4, f1);
    tr' := tr + [f1];
    Extend(tr', 4, f2);
    tr' := tr' + [f2];
    Extend(tr', 4, f');
    tr' := tr' + [f'];
  }

  /** The consumer holds buffer 0 and has read index 3 for it. */
  function Recalling(): Fine {
    Fine(Rx(4, [0, 1, 2, 0], 3, [0, 0, 0, 0], 1, 1, Idle, [], {0}, 1, {}, 3, 1, 1, 1,
            [1, 0, 0], [0, 0, 0], [Held, Avail(1), Avail(2)]),
         Mem(-1, [0, 0, 0], [0, 0, 0]), Slot(0, 3))
  }

  lemma RecallingRun() returns (tr: seq<Fine>)
    ensures IsFineRun(tr, 4) && tr[|tr| - 1] == Recalling()
  {
    tr := FirstPacket();
    var f0 := OnePacket();
    assert forall i :: 0 <= i < 3 ==> Inside(f0.mem, i);
    var f1 := Find(f0, 0);
    Extend(tr, 4, f1);
    tr := tr + [f1];
    var f2 := UnlinkWrite(f1);
    Extend(tr, 4, f2);
    tr := tr + [f2];
    var f3 := Begin(f2, 0);
    Extend(tr, 4, f3);
    tr := tr + [f3];
    assert f3 == Recalling();
  }

  /** An interrupt: the handler fetches buffer 1, recycles it into that slot and moves on. */
  function Recycling(): Fine {
    Fine(Rx(4, [0, 1, 2, 1], 4, [0, 1, 0, 0], 2, 2, Idle, [], {0}, 2, {}, 4, 2, 2, 2,
            [1, 1, 0], [0, 1, 0], [Held, Avail(3), Avail(2)]),
         Mem(-1, [0, 0, 0], [0, 0, 0]), Slot(0, 3))
  }

  lemma RecyclingRun() returns (tr: seq<Fine>, k: nat)
    ensures IsFineRun(tr, 4) && tr[|tr| - 1] == Recycling() && k + 1 < |tr| && Harm(tr[k], tr[k + 1])
  {
    tr := RecallingRun();
    var f1;
    tr, f1 := SecondPacket(tr, Recalling());
    k := |tr| - 1;
    var f2 := f1.(s := Discard(f1.s));
    Extend(tr, 4, f2);
    tr := tr + [f2];
    var f3 := f2.(s := Advance(f2.s));
    Extend(tr, 4, f3);
    tr := tr + [f3];
    assert f3 == Recycling();
  }

  predicate Small(s: Rx) { |s.got| == |s.back| == 3 && s.size == |s.avail| == |s.used| == 4 }

  /** The consumer writes over buffer 1, which the device has not read: it is lost. */
  lemma LosingRun() returns (tr: seq<Fine>)
    ensures IsFineRun(tr, 4) && Small(tr[|tr| - 1].s) && !Conserved(tr[|tr| - 1].s, 1)
  {
    var k;
    tr, k := RecyclingRun();
    var f := WriteSlot(Recycling());
    Extend(tr, 4, f);
    tr := tr + [f];
    assert f.s.avail == [0, 1, 2, 0];
    assert forall t: nat :: 2 <= t < 4 ==> f.s.avail[t % 4] != 1;
    assert !InAvail(f.s, 1) && !InUsed(f.s, 1);
  }

  /** The device has read both buffers that were there for it. */
  function ReadAhead(): Fine {
    var f := Recycling();
    f.(s := f.s.(devIdx := 4, flight := {1, 2}, taken := 4, place := [Held, Flight, Flight]))
  }

  /** And the consumer has finished its enqueue. */
  function Lucky(): Fine {
    var f := ReadAhead();
    f.(s := f.s.(avail := [0, 1, 2, 0], availIdx := 5, held := {}, published := 5, back := [1, 1, 0],
                 place := [Avail(4), Flight, Flight]), pc := Ready)
  }

  lemma ReadAheadRun() returns (tr: seq<Fine>, k: nat)
    ensures IsFineRun(tr, 4) && tr[|tr| - 1] == ReadAhead() && k + 1 < |tr| && Harm(tr[k], tr[k + 1])
  {
    tr, k := RecyclingRun();
    var f0 := Recycling();
    var f1 := f0.(s := Take(f0.s));
    Extend(tr, 4, f1);
    tr := tr + [f1];
    var f2 := f1.(s := Take(f1.s));
    Extend(tr, 4, f2);
    tr := tr + [f2];
    assert f2 == ReadAhead();
  }

  /**
   The same recycling inside the enqueue, but the device reads the slot before the consumer writes it, and the slot that
   the consumer then publishes holds its buffer from an earlier lap: every buffer is conserved.
   */
  lemma LuckyRun() returns (tr: seq<Fine>, k: nat)
    ensures IsFineRun(tr, 4) && k + 1 < |tr| && Harm(tr[k], tr[k + 1])
    ensures var f := tr[|tr| - 1];
            f.pc == Ready && Small(f.s) && Conserved(f.s, 0) && Conserved(f.s, 1) && Conserved(f.s, 2)
  {
    tr, k := ReadAheadRun();
    var f1 := WriteSlot(ReadAhead());
    Extend(tr, 4, f1);
    tr := tr + [f1];
    var f2 := RaiseIdx(f1);
    Extend(tr, 4, f2);
    tr := tr + [f2];
    assert f2 == Lucky();
    LuckyEnd();
  }

  lemma LuckyEnd()
    ensures var s := Lucky().s; Conserved(s, 0) && Conserved(s, 1) && Conserved(s, 2)
  {
    var s := Lucky().s;
    assert s.avail[4 % s.size] == 0;
    assert InAvail(s, 0) && !InAvail(s, 1) && !InAvail(s, 2);
  }

  /** The consumer takes the only packet off the list when another one arrives; the list is empty afterwards. */
  lemma DroppedRun() returns (tr: seq<Fine>)
    ensures IsFineRun(tr, 4)
    ensures var f := tr[|tr| - 1]; f.pc == Ready && f.s.queue == [1] && f.mem.rxq == -1 && !Holds(f.mem, f.s.queue)
  {
    tr := FirstPacket();
    var f0 := OnePacket();
    assert forall i :: 0 <= i < 3 ==> Inside(f0.mem, i);
    var f1 := Find(f0, 0);
    Extend(tr, 4, f1);
    tr := tr + [f1];
    var f2;
    tr, f2 := SecondPacket(tr, f1);
    var f3 := f2.(s := Enlist(f2.s), mem := Append(f2.mem, 1));
    AppendSound(f2.mem, 1);
    Extend(tr, 4, f3);
    tr := tr + [f3];
    var f4 := f3.(s := Advance(f3.s));
    Extend(tr, 4, f4);
    tr := tr + [f4];
    var f5 := UnlinkWrite(f4);
    Extend(tr, 4, f5);
    tr := tr + [f5];
  }
}
