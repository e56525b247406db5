/**
 The transmit side with interrupts: net_virtio_tx_enqueue access by access, from any number of contexts at once. The
 interrupt handler is one of them, as it answers pings and address queries, and the processes are others. A context
 looks at one descriptor after the other, claims one, reads the index, writes the slot and raises the index; the poll
 loop, the device and the other contexts may run between any two of these.
 */
module TxInterrupts {
  import opened VirtqRing
  import opened VirtioTx

  /** Where a context is in its enqueue. */
  datatype Pc =
    | Idle
    | Scanning(off: int, frame: int)
    | Found(d: int, frame: int)       // descriptor d was seen free
    | Claimed(d: int)                 // descriptor written
    | Slot(d: int, idx: int)          // index read
    | Raise(d: int)                   // slot written

  datatype Fine = Fine(s: Tx, pcs: seq<Pc>)

  /** n descriptors and k contexts. */
  function Start(n: nat, k: nat): Fine { Fine(Init(n), seq(k, _ => Idle)) }

  // ---------- steps ----------

  /** A context looks at descriptor off. */
  function Look(s: Tx, off: int, frame: int): Pc
    requires 0 <= off < |s.addr|
  {
    if s.addr[off] == 0 then Found(off, frame)
    else if off + 1 < s.size then Scanning(off + 1, frame)
    else Idle                         // ENOMEM
  }

  function Slotted(s: Tx, idx: int, d: int): Tx
    requires 0 < s.size == |s.avail|
  {
    s.(avail := s.avail[idx % s.size := d])
  }

  /** The index is raised, whatever its slot holds. */
  function Raised(s: Tx, d: int): Tx
    requires CanPublish(s, d)
  {
    Publish(s, d).(avail := s.avail)
  }

  predicate CanMove(s: Tx, pc: Pc) {
    match pc
    case Idle => false
    case Scanning(off, frame) => 0 <= off < |s.addr|
    case Found(d, frame) => 0 <= d < |s.addr| == |s.place|
    case Claimed(d) => true
    case Slot(d, idx) => 0 < s.size == |s.avail|
    case Raise(d) => CanPublish(s, d)
  }

  function Next(s: Tx, pc: Pc): (r: (Tx, Pc))
    requires CanMove(s, pc)
  {
    match pc
    case Scanning(off, frame) => (s, Look(s, off, frame))
    case Found(d, frame) => (Write(s, d, frame), Claimed(d))
    case Claimed(d) => (s, Slot(d, s.availIdx))
    case Slot(d, idx) => (Slotted(s, idx, d), Raise(d))
    case Raise(d) => (Raised(s, d), Idle)
  }

  ghost predicate Begins(f: Fine, f': Fine, c: int) {
    && 0 <= c < |f.pcs| && f.pcs[c] == Idle
    && exists frame :: frame != 0 && f' == f.(pcs := f.pcs[c := Scanning(0, frame)])
  }

  predicate Goes(f: Fine, f': Fine, c: int) {
    && 0 <= c < |f.pcs| && CanMove(f.s, f.pcs[c])
    && f' == Fine(Next(f.s, f.pcs[c]).0, f.pcs[c := Next(f.s, f.pcs[c]).1])
  }

  /** A step of the device or one round of the poll loop. */
  ghost predicate Elsewhere(f: Fine, f': Fine) {
    f' == f.(s := f'.s) && (DeviceStep(f.s, f'.s) || (CanReap(f.s) && f'.s == Reap(f.s)))
  }

  ghost predicate Moves(f: Fine, f': Fine) {
    Elsewhere(f, f') || (exists c :: Begins(f, f', c)) || (exists c :: Goes(f, f', c))
  }

  // ---------- steps that do damage ----------

  predicate SlotIs(s: Tx, t: int, idx: int) { 0 < s.size && t % s.size == idx % s.size }

  /** The slot of this index is published, and the device has not read it. */
  ghost predicate Unread(s: Tx, idx: int) { exists t :: |s.seen| <= t < |s.sent| && SlotIs(s, t, idx) }

  /** A claim takes a descriptor that is no longer free, a slot write hits an unread slot, or an index is raised over a
      slot that does not hold the context's descriptor. */
  ghost predicate BadMove(s: Tx, pc: Pc)
    requires CanMove(s, pc)
  {
    match pc
    case Found(d, _) => s.addr[d] != 0
    case Slot(_, idx) => Unread(s, idx)
    case Raise(d) => s.avail[s.availIdx % s.size] != d
    case _ => false
  }

  ghost predicate BadAs(f: Fine, f': Fine, c: int) { Goes(f, f', c) && BadMove(f.s, f.pcs[c]) }

  ghost predicate Bad(f: Fine, f': Fine) { exists c :: BadAs(f, f', c) }

  // ---------- order ----------

  predicate Owns(pc: Pc) { pc.Claimed? || pc.Slot? || pc.Raise? }

  predicate OwnOk(f: Fine, c: int)
    requires 0 <= c < |f.pcs|
  {
    match f.pcs[c]
    case Scanning(off, frame) => 0 <= off < f.s.size && frame != 0
    case Found(d, frame) => 0 <= d < f.s.size && frame != 0
    case Idle => true
    case _ => f.pcs[c].d in f.s.written
  }

  predicate OtherOwn(f: Fine, c: int, e: int)
    requires 0 <= c < |f.pcs| && 0 <= e < |f.pcs|
  {
    Owns(f.pcs[c]) && Owns(f.pcs[e]) ==> f.pcs[c].d != f.pcs[e].d
  }

  predicate OwnerIs(f: Fine, d: int, c: int) { 0 <= c < |f.pcs| && Owns(f.pcs[c]) && f.pcs[c].d == d }

  ghost predicate Owned(f: Fine, d: int) { exists c :: OwnerIs(f, d, c) }

  /** Rings and descriptors are in order, and every written descriptor belongs to one context. */
  ghost predicate InOrder(f: Fine) {
    && Inv(f.s)
    && (forall c :: 0 <= c < |f.pcs| ==> OwnOk(f, c))
    && (forall c, e :: 0 <= c < e < |f.pcs| ==> OtherOwn(f, c, e))
    && (forall d :: d in f.s.written ==> Owned(f, d))
  }

  lemma StartInOrder(n: nat, k: nat)
    requires GoodSize(n)
    ensures InOrder(Start(n, k))
  {
    InitInv(n);
  }

  lemma OwnersDiffer(f: Fine, c: int, e: int)
    requires InOrder(f) && 0 <= c < |f.pcs| && 0 <= e < |f.pcs| && c != e && Owns(f.pcs[c]) && Owns(f.pcs[e])
    ensures f.pcs[c].d != f.pcs[e].d
  {
    assert OtherOwn(f, if c < e then c else e, if c < e then e else c);
  }

  /** Contexts stay in order when the descriptors written are the same and context c at most moves on with its own. */
  lemma SameOwners(f: Fine, f': Fine, c: int)
    requires InOrder(f) && 0 <= c < |f.pcs| && Inv(f'.s) && f'.s.size == f.s.size && f'.s.written == f.s.written
    requires |f'.pcs| == |f.pcs| && f'.pcs == f.pcs[c := f'.pcs[c]] && OwnOk(f', c)
    requires Owns(f'.pcs[c]) <==> Owns(f.pcs[c])
    requires Owns(f.pcs[c]) ==> f'.pcs[c].d == f.pcs[c].d
    ensures InOrder(f')
  {
    forall e | 0 <= e < |f'.pcs| ensures OwnOk(f', e) { assert OwnOk(f, e); }
    forall e, g | 0 <= e < g < |f'.pcs| ensures OtherOwn(f', e, g) { assert OtherOwn(f, e, g); }
    forall d | d in f'.s.written ensures Owned(f', d) {
      assert Owned(f, d);
      var e :| OwnerIs(f, d, e);
      assert OwnerIs(f', d, e);
    }
  }

  lemma ElsewhereInOrder(f: Fine, f': Fine)
    requires InOrder(f) && Elsewhere(f, f')
    ensures InOrder(f') && f'.s.size == f.s.size
  {
    StepInv(f.s, f'.s);
    forall e | 0 <= e < |f'.pcs| ensures OwnOk(f', e) { assert OwnOk(f, e); }
    forall e, g | 0 <= e < g < |f'.pcs| ensures OtherOwn(f', e, g) { assert OtherOwn(f, e, g); }
    forall d | d in f'.s.written ensures Owned(f', d) {
      assert Owned(f, d);
      var e :| OwnerIs(f, d, e);
      assert OwnerIs(f', d, e);
    }
  }

  lemma ClaimInOrder(f: Fine, f': Fine, c: int)
    requires InOrder(f) && Goes(f, f', c) && f.pcs[c].Found? && f.s.addr[f.pcs[c].d] == 0
    ensures InOrder(f')
  {
    var d, frame := f.pcs[c].d, f.pcs[c].frame;
    assert OwnOk(f, c);
    WriteInv(f.s, d, frame);
    assert PlaceOk(f.s, d);
    forall e | 0 <= e < |f'.pcs| ensures OwnOk(f', e) { assert OwnOk(f, e); }
    forall e, g | 0 <= e < g < |f'.pcs| ensures OtherOwn(f', e, g) {
      assert OtherOwn(f, e, g) && OwnOk(f, e) && OwnOk(f, g);
    }
    forall b | b in f'.s.written ensures Owned(f', b) {
      if b == d {
        assert OwnerIs(f', b, c);
      } else {
        assert Owned(f, b);
        var e :| OwnerIs(f, b, e);
        assert OwnerIs(f', b, e);
      }
    }
  }

  /** A slot may be written if the device has nothing to read there. */
  lemma SlotInv(s: Tx, idx: int, d: int)
    requires Inv(s) && !Unread(s, idx)
    ensures Inv(Slotted(s, idx, d))
  {
    var s' := Slotted(s, idx, d);
    forall t | |s.seen| <= t < |s.sent| ensures AvailOk(s', t) {
      assert AvailOk(s, t);
      assert !SlotIs(s, t, idx);
    }
    forall e | 0 <= e < s.size ensures PlaceOk(s', e) {
      assert PlaceOk(s, e);
      if s.place[e].Avail? { assert !SlotIs(s, s.place[e].t, idx); }
    }
    forall r | |s.freed| <= r < |s.returned| ensures UsedOk(s', r) { assert UsedOk(s, r); }
    forall t | 0 <= t < |s.sent| ensures Accounted(s', t) { assert Accounted(s, t); }
    forall r | 0 <= r < |s.returned| ensures ReturnedOk(s', r) { assert ReturnedOk(s, r); }
  }

  lemma RaiseInOrder(f: Fine, f': Fine, c: int)
    requires InOrder(f) && Goes(f, f', c) && f.pcs[c].Raise? && f.s.avail[f.s.availIdx % f.s.size] == f.pcs[c].d
    ensures InOrder(f')
  {
    var d := f.pcs[c].d;
    assert f.s.avail[f.s.availIdx % f.s.size := d] == f.s.avail;
    PublishInv(f.s, d);
    forall e | 0 <= e < |f'.pcs| ensures OwnOk(f', e) {
      assert OwnOk(f, e);
      if e != c && Owns(f.pcs[e]) { OwnersDiffer(f, c, e); }
    }
    forall e, g | 0 <= e < g < |f'.pcs| ensures OtherOwn(f', e, g) { assert OtherOwn(f, e, g); }
    forall b | b in f'.s.written ensures Owned(f', b) {
      assert Owned(f, b);
      var e :| OwnerIs(f, b, e);
      assert OwnerIs(f', b, e);
    }
  }

  lemma GoesInOrder(f: Fine, f': Fine, c: int)
    requires InOrder(f) && Goes(f, f', c) && !BadMove(f.s, f.pcs[c])
    ensures InOrder(f') && f'.s.size == f.s.size
  {
    assert OwnOk(f, c);
    match f.pcs[c]
    case Scanning(_, _) => SameOwners(f, f', c);
    case Found(_, _) => ClaimInOrder(f, f', c);
    case Claimed(_) => SameOwners(f, f', c);
    case Slot(d, idx) =>
      SlotInv(f.s, idx, d);
      SameOwners(f, f', c);
    case Raise(_) => RaiseInOrder(f, f', c);
  }

  /** Every step but a bad one keeps rings, descriptors and contexts in order. */
  lemma MoveInOrder(f: Fine, f': Fine)
    requires InOrder(f) && Moves(f, f') && !Bad(f, f')
    ensures InOrder(f') && f'.s.size == f.s.size
  {
    if Elsewhere(f, f') {
      ElsewhereInOrder(f, f');
    } else if c :| Begins(f, f', c) {
      SameOwners(f, f', c);
    } else {
      var c :| Goes(f, f', c);
      assert !BadAs(f, f', c);
      GoesInOrder(f, f', c);
    }
  }

  // ---------- what a bad step breaks ----------

  /** A claim of a descriptor that is in use: its frame is replaced before the driver has it back. */
  lemma BadClaimRewrites(f: Fine, f': Fine, c: int)
    requires InOrder(f) && BadAs(f, f', c) && f.pcs[c].Found?
    ensures var d := f.pcs[c].d; f'.s.addr[d] == f.pcs[c].frame
    ensures !InOrder(f')
    ensures match f.s.place[f.pcs[c].d]
            case Free => false
            case Written => exists e :: e != c && OwnerIs(f, f.pcs[c].d, e)
            case Avail(t) => t < |f.s.sent| && f.s.addr[f.pcs[c].d] == f.s.sent[t]
            case Flight(t) => t < |f.s.sent| && f.s.addr[f.pcs[c].d] == f.s.sent[t]
            case Used(_, t) => t < |f.s.sent| && f.s.addr[f.pcs[c].d] == f.s.sent[t]
  {
    var d := f.pcs[c].d;
    assert OwnOk(f, c) && PlaceOk(f.s, d);
    match f.s.place[d]
    case Written =>
      assert Owned(f, d);
      var e :| OwnerIs(f, d, e);
      assert !OtherOwn(f', if c < e then c else e, if c < e then e else c);
    case Avail(t) => assert !AvailOk(f'.s, t);
    case Flight(t) => assert d in f'.s.flight && !f'.s.place[d].Flight?;
    case Used(r, _) => assert !UsedOk(f'.s, r);
  }

  /** A slot that is overwritten before the device has read it: the publication in it is lost. */
  lemma BadWriteLoses(f: Fine, f': Fine, c: int) returns (t: int)
    requires InOrder(f) && BadAs(f, f', c) && f.pcs[c].Slot?
    ensures |f.s.seen| <= t < |f.s.sent| && !InOrder(f')
    ensures f'.s.avail[t % f.s.size] == f.pcs[c].d != f.s.desc[t]
  {
    t :| |f.s.seen| <= t < |f.s.sent| && SlotIs(f.s, t, f.pcs[c].idx);
    assert OwnOk(f, c) && AvailOk(f.s, t) && PlaceOk(f.s, f.s.avail[t % f.s.size]);
    assert !AvailOk(f'.s, t);
  }

  /** An index raised over another descriptor: the device is handed that one instead of the context's. */
  lemma BadRaiseLoses(f: Fine, f': Fine, c: int)
    requires InOrder(f) && BadAs(f, f', c) && f.pcs[c].Raise?
    ensures var t := |f.s.sent|; |f'.s.sent| == t + 1 && f'.s.desc[t] == f.pcs[c].d != f'.s.avail[t % f.s.size]
    ensures !InOrder(f')
  {
    PublishRoom(f.s, f.pcs[c].d);
    assert !PlaceOk(f'.s, f.pcs[c].d);
  }

  lemma BadStep(f: Fine, f': Fine)
    requires InOrder(f) && Bad(f, f')
    ensures !InOrder(f')
  {
    var c :| BadAs(f, f', c);
    if f.pcs[c].Found? {
      BadClaimRewrites(f, f', c);
    } else if f.pcs[c].Slot? {
      var t := BadWriteLoses(f, f', c);
    } else {
      BadRaiseLoses(f, f', c);
    }
  }

  // ---------- runs ----------

  ghost predicate MoveAt(tr: seq<Fine>, i: int)
    requires 0 <= i < |tr| - 1
  {
    Moves(tr[i], tr[i + 1])
  }

  ghost predicate BadAt(tr: seq<Fine>, i: int)
    requires 0 <= i < |tr| - 1
  {
    Bad(tr[i], tr[i + 1])
  }

  ghost predicate InOrderAt(tr: seq<Fine>, i: int)
    requires 0 <= i < |tr|
  {
    InOrder(tr[i])
  }

  ghost predicate IsFineRun(tr: seq<Fine>, n: nat, k: nat) {
    tr != [] && tr[0] == Start(n, k) && forall i :: 0 <= i < |tr| - 1 ==> MoveAt(tr, i)
  }

  lemma StepExact(f: Fine, f': Fine)
    requires InOrder(f) && Moves(f, f')
    ensures InOrder(f') <==> !Bad(f, f')
  {
    if Bad(f, f') { BadStep(f, f'); } else { MoveInOrder(f, f'); }
  }

  /** A run is in order throughout if and only if none of its steps is bad. */
  lemma {:induction false} RunExact(tr: seq<Fine>, n: nat, k: nat, m: nat)
    requires GoodSize(n) && IsFineRun(tr, n, k) && m < |tr|
    ensures (forall i :: 0 <= i <= m ==> InOrderAt(tr, i)) <==> (forall i :: 0 <= i < m ==> !BadAt(tr, i))
  {
    if m == 0 {
      StartInOrder(n, k);
      assert InOrderAt(tr, 0);
    } else {
      var last := m - 1;
      RunExact(tr, n, k, last);
      assert MoveAt(tr, last);
      if forall i :: 0 <= i <= last ==> InOrderAt(tr, i) {
        assert InOrderAt(tr, last);
        StepExact(tr[last], tr[m]);
        assert BadAt(tr, last) <==> !InOrderAt(tr, m);
      }
    }
  }

  // ---------- contexts that keep out of each other's way ----------

  /** A context makes an access that another one in this place does not allow for. */
  predicate Clash(pc: Pc, other: Pc) {
    || (pc.Found? && other.Found? && pc.d == other.d)
    || (pc.Slot? && other.Raise?)
    || (pc.Raise? && (other.Slot? || other.Raise?))
  }

  ghost predicate HarmAs(f: Fine, f': Fine, c: int, e: int) {
    Goes(f, f', c) && 0 <= e < |f.pcs| && e != c && Clash(f.pcs[c], f.pcs[e])
  }

  /** A claim of what another context has just found, or an enqueue inside another one's between index read and
      raise. */
  ghost predicate Harm(f: Fine, f': Fine) { exists c, e :: HarmAs(f, f', c, e) }

  /** What the context knows is still so. */
  predicate Current(s: Tx, pc: Pc) {
    match pc
    case Found(d, _) => 0 <= d < |s.addr| && s.addr[d] == 0
    case Slot(_, idx) => idx == s.availIdx
    case Raise(d) => 0 < s.size == |s.avail| && s.avail[s.availIdx % s.size] == d
    case _ => true
  }

  predicate CurrentAt(f: Fine, c: int)
    requires 0 <= c < |f.pcs|
  {
    Current(f.s, f.pcs[c])
  }

  ghost predicate UpToDate(f: Fine) { forall c :: 0 <= c < |f.pcs| ==> CurrentAt(f, c) }

  /** The next slot is never one that the device is still to read, as long as a descriptor waits for it. */
  lemma NextSlotFree(s: Tx, d: int)
    requires Inv(s) && d in s.written
    ensures !Unread(s, s.availIdx)
  {
    assert CanPublish(s, d);
    PublishRoom(s, d);
    forall t | |s.seen| <= t < |s.sent| ensures !SlotIs(s, t, s.availIdx) { DistinctSlots(s.size, t, |s.sent|); }
  }

  lemma CurrentNotBad(f: Fine, f': Fine, c: int)
    requires InOrder(f) && Goes(f, f', c) && CurrentAt(f, c)
    ensures !BadMove(f.s, f.pcs[c])
  {
    assert OwnOk(f, c);
    if f.pcs[c].Slot? { NextSlotFree(f.s, f.pcs[c].d); }
  }

  lemma StaysCurrent(f: Fine, f': Fine, c: int, e: int)
    requires InOrder(f) && Goes(f, f', c) && 0 <= e < |f.pcs|
    requires CurrentAt(f, c) && CurrentAt(f, e) && !HarmAs(f, f', c, e)
    ensures CurrentAt(f', e)
  {
    assert OwnOk(f, c) && OwnOk(f, e);
  }

  lemma ElsewhereCurrent(f: Fine, f': Fine, e: int)
    requires Elsewhere(f, f') && 0 <= e < |f.pcs| && CurrentAt(f, e)
    ensures CurrentAt(f', e)
  {}

  lemma QuietStep(f: Fine, f': Fine)
    requires InOrder(f) && UpToDate(f) && Moves(f, f') && !Harm(f, f')
    ensures !Bad(f, f') && UpToDate(f')
  {
    if c :| BadAs(f, f', c) {
      assert CurrentAt(f, c);
      CurrentNotBad(f, f', c);
    }
    forall e | 0 <= e < |f'.pcs| ensures CurrentAt(f', e) {
      assert CurrentAt(f, e);
      if Elsewhere(f, f') {
        ElsewhereCurrent(f, f', e);
      } else if c :| Goes(f, f', c) {
        assert CurrentAt(f, c) && !HarmAs(f, f', c, e);
        StaysCurrent(f, f', c, e);
      }
    }
  }

  ghost predicate QuietAt(tr: seq<Fine>, i: int)
    requires 0 <= i < |tr| - 1
  {
    !Harm(tr[i], tr[i + 1])
  }

  lemma {:induction false} QuietRun(tr: seq<Fine>, n: nat, k: nat, m: nat)
    requires GoodSize(n) && IsFineRun(tr, n, k) && m < |tr| && forall i :: 0 <= i < m ==> QuietAt(tr, i)
    ensures InOrder(tr[m]) && UpToDate(tr[m])
  {
    if m == 0 {
      StartInOrder(n, k);
    } else {
      var last := m - 1;
      QuietRun(tr, n, k, last);
      assert MoveAt(tr, last) && QuietAt(tr, last);
      QuietStep(tr[last], tr[m]);
      MoveInOrder(tr[last], tr[m]);
    }
  }

  /**
   In every run, as long as the contexts kept out of each other's way, the device has read the frames published, in that
   order, and each frame given back is a published one, none twice.
   */
  lemma QuietDelivers(tr: seq<Fine>, n: nat, k: nat, m: nat)
    requires GoodSize(n) && IsFineRun(tr, n, k) && m < |tr| && forall i :: 0 <= i < m ==> QuietAt(tr, i)
    ensures var s := tr[m].s; s.seen <= s.sent && |s.freed| <= |s.returned| && Reclaimed(s)
  {
    QuietRun(tr, n, k, m);
    var s := tr[m].s;
    forall j | 0 <= j < |s.freed| ensures ReclaimedAt(s, j) { assert ReturnedOk(s, j); }
  }

  predicate ReclaimedAt(s: Tx, j: int)
    requires 0 <= j < |s.freed| <= |s.returned|
  {
    s.returned[j] < |s.sent| && s.freed[j] == s.sent[s.returned[j]] && s.returned[j] !in s.returned[..j]
  }

  predicate Reclaimed(s: Tx)
    requires |s.freed| <= |s.returned|
  {
    forall j :: 0 <= j < |s.freed| ==> ReclaimedAt(s, j)
  }

  // ---------- a run that loses a frame ----------

  lemma Extend(tr: seq<Fine>, n: nat, k: nat, f: Fine)
    requires IsFineRun(tr, n, k) && Moves(tr[|tr| - 1], f)
    ensures IsFineRun(tr + [f], n, k)
  {
    var tr' := tr + [f];
    forall i | 0 <= i < |tr'| - 1 ensures MoveAt(tr', i) { if i < |tr| - 1 { assert MoveAt(tr, i); } }
  }

  /** Context c makes its next access. */
  lemma Proceed(tr: seq<Fine>, n: nat, k: nat, c: int) returns (tr': seq<Fine>, f: Fine)
    requires IsFineRun(tr, n, k) && 0 <= c < |tr[|tr| - 1].pcs| && CanMove(tr[|tr| - 1].s, tr[|tr| - 1].pcs[c])
    ensures IsFineRun(tr', n, k) && tr'[|tr'| - 1] == f
    ensures var g := tr[|tr| - 1]; f == Fine(Next(g.s, g.pcs[c]).0, g.pcs[c := Next(g.s, g.pcs[c]).1])
  {
    var g := tr[|tr| - 1];
    f := Fine(Next(g.s, g.pcs[c]).0, g.pcs[c := Next(g.s, g.pcs[c]).1]);
    assert Goes(g, f, c);
    Extend(tr, n, k, f);
    tr' := tr + [f];
  }

  lemma BeginAs(tr: seq<Fine>, n: nat, k: nat, c: int, frame: int) returns (tr': seq<Fine>, f: Fine)
    requires IsFineRun(tr, n, k) && 0 <= c < |tr[|tr| - 1].pcs| && tr[|tr| - 1].pcs[c] == Idle && frame != 0
    ensures IsFineRun(tr', n, k) && tr'[|tr'| - 1] == f
    ensures var g := tr[|tr| - 1]; f == g.(pcs := g.pcs[c := Scanning(0, frame)])
  {
    var g := tr[|tr| - 1];
    f := g.(pcs := g.pcs[c := Scanning(0, frame)]);
    assert Begins(g, f, c);
    Extend(tr, n, k, f);
    tr' := tr + [f];
  }

  const ZEROS: seq<int> := [0, 0, 0, 0]

  /** A process, context 1, has found descriptor 0 for its frame 9. */
  function ProcessFound(): Fine {
    Fine(Tx(4, ZEROS, ZEROS, 0, ZEROS, 0, 0, {}, 0, {}, [], [], [], [], [], [Free, Free, Free, Free]),
         [Idle, Found(0, 9)])
  }

  /** An interrupt: the handler, context 0, has enqueued its frame 7 from beginning to end. */
  function HandlerDone(): Fine {
    Fine(Tx(4, [7, 0, 0, 0], ZEROS, 1, ZEROS, 0, 0, {}, 0, {}, [7], [0], [], [], [], [Avail(0), Free, Free, Free]),
         [Idle, Found(0, 9)])
  }

  /** The process has gone on from where it was. */
  function ProcessDone(): Fine {
    Fine(Tx(4, [9, 0, 0, 0], ZEROS, 2, ZEROS, 0, 0, {}, 0, {}, [7, 9], [0, 0], [], [], [],
            [Avail(1), Free, Free, Free]),
         [Idle, Idle])
  }

  lemma FoundRun() returns (tr: seq<Fine>)
    ensures IsFineRun(tr, 4, 2) && tr[|tr| - 1] == ProcessFound()
  {
    tr := [Start(4, 2)];
    var f;
    tr, f := BeginAs(tr, 4, 2, 1, 9);
    tr, f := Proceed(tr, 4, 2, 1);
    assert f == ProcessFound();
  }

  lemma HandlerRun(tr: seq<Fine>) returns (tr': seq<Fine>)
    requires IsFineRun(tr, 4, 2) && tr[|tr| - 1] == ProcessFound()
    ensures IsFineRun(tr', 4, 2) && tr'[|tr'| - 1] == HandlerDone()
  {
    var f;
    tr', f := BeginAs(tr, 4, 2, 0, 7);
    tr', f := Proceed(tr', 4, 2, 0);
    tr', f := Proceed(tr', 4, 2, 0);
    tr', f := Proceed(tr', 4, 2, 0);
    tr', f := Proceed(tr', 4, 2, 0);
    tr', f := Proceed(tr', 4, 2, 0);
    assert f == HandlerDone();
  }

  lemma ProcessRun(tr: seq<Fine>) returns (tr': seq<Fine>)
    requires IsFineRun(tr, 4, 2) && tr[|tr| - 1] == HandlerDone()
    ensures IsFineRun(tr', 4, 2) && tr'[|tr'| - 1] == ProcessDone()
  {
    var f;
    tr', f := Proceed(tr, 4, 2, 1);
    tr', f := Proceed(tr', 4, 2, 1);
    tr', f := Proceed(tr', 4, 2, 1);
    tr', f := Proceed(tr', 4, 2, 1);
    assert f == ProcessDone();
  }

  /**
   An interrupt between the scan and the claim of a process, in which the handler sends a frame: both use the same
   descriptor, and the device sends the process's frame twice and the handler's never.
   */
  lemma LosingRun() returns (tr: seq<Fine>)
    ensures IsFineRun(tr, 4, 2) && tr[|tr| - 1].s.sent == [7, 9] && tr[|tr| - 1].s.seen == [9, 9]
  {
    tr := FoundRun();
    tr := HandlerRun(tr);
    tr := ProcessRun(tr);
    var f1 := ProcessDone().(s := Take(ProcessDone().s));
    Extend(tr, 4, 2, f1);
    tr := tr + [f1];
    var f2 := f1.(s := Take(f1.s));
    Extend(tr, 4, 2, f2);
    tr := tr + [f2];
  }
}
