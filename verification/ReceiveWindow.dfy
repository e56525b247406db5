/**
 Interrupts that arrive while a consumer takes a packet off the receive list (src/core/net.c, net_wait_udp4).
 The removal is up to three writes, and the interrupt handler may append packets between any two of them.
 */
module ReceiveWindow {
  import opened ReceiveList

  predicate FitsAt(n: int, es: seq<int>, i: int)
    requires 0 <= i < |es|
  {
    0 <= es[i] < n
  }

  predicate Fits(n: int, es: seq<int>) { forall i :: 0 <= i < |es| ==> FitsAt(n, es, i) }

  /** All but the last. */
  function Front(es: seq<int>): seq<int>
    requires es != []
  {
    es[..|es| - 1]
  }

  function Last(es: seq<int>): int
    requires es != []
  {
    es[|es| - 1]
  }

  lemma FrontFits(n: int, es: seq<int>)
    requires es != [] && Fits(n, es)
    ensures Fits(n, Front(es)) && 0 <= Last(es) < n && Last(es) in es
    ensures forall e :: e in Front(es) ==> e in es
  {
    assert FitsAt(n, es, |es| - 1);
    forall i | 0 <= i < |es| - 1 ensures FitsAt(n, Front(es), i) { assert FitsAt(n, es, i); }
  }

  function AppendAll(m: Mem, es: seq<int>): (r: Mem)
    requires Sound(m) && Fits(|m.next|, es)
    ensures Sound(r) && |r.next| == |m.next|
  {
    if es == [] then m
    else
      FrontFits(|m.next|, es);
      var u := AppendAll(m, Front(es));
      AppendSound(u, Last(es));
      Append(u, Last(es))
  }

  /** A removal that has made its tests and j of its writes when the handler appends es. */
  function Interrupted(m: Mem, cur: int, j: nat, es: seq<int>): (r: Mem)
    requires Sound(m) && 0 <= cur < |m.next| && Fits(|m.next|, es)
  {
    var kind := KindOf(m, cur);
    Cut(AppendAll(Cut(m, cur, kind, 0, j), es), cur, kind, j, Writes(kind))
  }

  /** The packets es are new to the list, and each comes once. */
  ghost predicate Arriving(m: Mem, q: seq<int>, es: seq<int>) {
    && Fits(|m.next|, es) && (forall e :: e in es ==> e !in q)
    && (forall i :: 0 <= i < |es| ==> es[i] !in es[..i])
  }

  lemma ArrivingFewer(m: Mem, q: seq<int>, es: seq<int>)
    requires Arriving(m, q, es) && es != []
    ensures Arriving(m, q, Front(es)) && Last(es) !in q + Front(es)
    ensures q + es == q + Front(es) + [Last(es)]
  {
    FrontFits(|m.next|, es);
    var fs := Front(es);
    forall i | 0 <= i < |fs| ensures fs[i] !in fs[..i] { assert fs[..i] == es[..i]; }
  }

  lemma {:induction false} AppendAllHolds(m: Mem, q: seq<int>, es: seq<int>)
    requires Sound(m) && Holds(m, q) && Arriving(m, q, es)
    ensures Holds(AppendAll(m, es), q + es)
  {
    if es == [] {
      assert q + es == q;
    } else {
      ArrivingFewer(m, q, es);
      FrontFits(|m.next|, es);
      AppendAllHolds(m, q, Front(es));
      AppendHolds(AppendAll(m, Front(es)), q + Front(es), Last(es));
    }
  }

  // ---------- where it does no harm ----------

  /** Appending does not mind the first write of a removal in the middle of the list. */
  lemma Commute(m: Mem, q: seq<int>, k: int, d: int)
    requires Sound(m) && Holds(m, q) && 0 < k < |q| - 1 && 0 <= q[k] < |m.next| && 0 <= d < |m.next| && d !in q
    ensures Sound(Write(m, q[k], Other, 0)) && Sound(Append(m, d))
    ensures Append(Write(m, q[k], Other, 0), d) == Write(Append(m, d), q[k], Other, 0)
  {
    WriteSound(m, q[k], Other, 0);
    AppendSound(m, d);
    assert Link(m.next, m.prev, q, k) && Link(m.next, m.prev, q, k - 1) && Link(m.next, m.prev, q, |q| - 1);
    Differs(q, 0, k);
    Differs(q, 0, k + 1);
    Differs(q, k, |q| - 1);
  }

  lemma {:induction false} CommuteAll(m: Mem, q: seq<int>, k: int, es: seq<int>)
    requires Sound(m) && Holds(m, q) && Arriving(m, q, es) && 0 < k < |q| - 1 && 0 <= q[k] < |m.next|
    ensures Sound(Write(m, q[k], Other, 0))
    ensures AppendAll(Write(m, q[k], Other, 0), es) == Write(AppendAll(m, es), q[k], Other, 0)
  {
    WriteSound(m, q[k], Other, 0);
    if es != [] {
      var fs, d := Front(es), Last(es);
      ArrivingFewer(m, q, es);
      FrontFits(|m.next|, es);
      CommuteAll(m, q, k, fs);
      AppendAllHolds(m, q, fs);
      Commute(AppendAll(m, fs), q + fs, k, d);
    }
  }

  lemma WithoutBefore(q: seq<int>, k: int, es: seq<int>)
    requires 0 <= k < |q|
    ensures Without(q + es, k) == Without(q, k) + es
  {}

  lemma CutFrom(m: Mem, cur: int, kind: Kind, upto: nat)
    requires Sound(m) && 0 <= cur < |m.next| && 0 < upto
    ensures Sound(Write(m, cur, kind, 0))
    ensures Cut(m, cur, kind, 0, upto) == Cut(Write(m, cur, kind, 0), cur, kind, 1, upto)
    ensures Cut(m, cur, kind, 0, 0) == m && Cut(m, cur, kind, 0, 1) == Write(m, cur, kind, 0)
  {
    WriteSound(m, cur, kind, 0);
    assert Cut(Write(m, cur, kind, 0), cur, kind, 1, 1) == Write(m, cur, kind, 0);
  }

  /** The same as if the packets had arrived before. */
  lemma NoHarm(m: Mem, q: seq<int>, k: int, j: nat, es: seq<int>)
    requires Sound(m) && Holds(m, q) && Arriving(m, q, es) && es != [] && 0 <= k < |q| && 0 <= q[k] < |m.next|
    requires |q| > 1 && (j == 0 || (j == 1 && 0 < k < |q| - 1))
    ensures Holds(Interrupted(m, q[k], j, es), Without(q, k) + es)
  {
    var cur, kind, u := q[k], KindOf(m, q[k]), AppendAll(m, es);
    AppendAllHolds(m, q, es);
    WithoutBefore(q, k, es);
    CutHolds(m, q, k);
    CutHolds(u, q + es, k);
    CutFrom(m, cur, kind, Writes(kind));
    if j == 1 {
      CutFrom(u, cur, kind, Writes(kind));
      CommuteAll(m, q, k, es);
    }
  }

  // ---------- where it does ----------

  /** Appending writes the prev of the first node only, and of the new one. */
  lemma {:induction false} PrevKept(m: Mem, es: seq<int>, b: int)
    requires Sound(m) && es != [] && 0 <= b < |m.next| && b != m.rxq && m.rxq != -1 && b !in es
    requires Fits(|m.next|, es)
    ensures AppendAll(m, es).prev[b] == m.prev[b] && AppendAll(m, es).rxq == m.rxq
  {
    FrontFits(|m.next|, es);
    if |es| > 1 { PrevKept(m, Front(es), b); }
  }

  /** And the next of the last node only, and of the new one. */
  lemma {:induction false} NextKept(m: Mem, es: seq<int>, b: int)
    requires Sound(m) && 0 <= b < |m.next| && m.rxq != -1 && b !in es
    requires b != m.prev[m.rxq] && m.rxq !in es && Fits(|m.next|, es)
    ensures var r := AppendAll(m, es);
            && r.next[b] == m.next[b] && r.rxq == m.rxq
            && (if es == [] then r.prev[m.rxq] == m.prev[m.rxq] else r.prev[m.rxq] in es)
  {
    if es != [] {
      FrontFits(|m.next|, es);
      NextKept(m, Front(es), b);
    }
  }

  /** The only packet: the list head is cleared over the packets that arrived. */
  lemma LostWithHead(m: Mem, q: seq<int>, es: seq<int>)
    requires Sound(m) && Holds(m, q) && |q| == 1 && Arriving(m, q, es) && es != [] && 0 <= q[0] < |m.next|
    ensures !Holds(Interrupted(m, q[0], 0, es), Without(q, 0) + es)
  {
    CutHolds(m, q, 0);
    var u := AppendAll(m, es);
    WriteSound(u, q[0], Only, 0);
    var r := Interrupted(m, q[0], 0, es);
    assert Cut(Write(u, q[0], Only, 0), q[0], Only, 1, 1) == Write(u, q[0], Only, 0);
    assert FitsAt(|m.next|, es, 0);
    assert r.rxq == -1 && Without(q, 0) + es == es;
  }

  /** The first of several, after its first write: the new first node keeps pointing back at the old last one. */
  lemma BrokenBack(m: Mem, q: seq<int>, j: nat, es: seq<int>)
    requires Sound(m) && Holds(m, q) && |q| > 1 && Arriving(m, q, es) && es != [] && 0 <= q[0] < |m.next|
    requires j == 1 || j == 2
    ensures !Holds(Interrupted(m, q[0], j, es), Without(q, 0) + es)
  {
    var cur, n := q[0], |q|;
    CutHolds(m, q, 0);
    assert Link(m.next, m.prev, q, 0) && Link(m.next, m.prev, q, n - 1);
    Differs(q, 0, 1);
    var m1 := Write(m, cur, First, 0);
    CutFrom(m, cur, First, j);
    CutKeeps(m1, cur, 1, j);
    var m2 := Cut(m1, cur, First, 1, j);
    PrevKept(m2, es, q[1]);
    CutKeeps(AppendAll(m2, es), cur, j, 3);
    var r, q' := Interrupted(m, cur, j, es), Without(q, 0) + es;
    assert r.prev[q[1]] == q[n - 1];
    assert q'[0] == q[1] && q'[|q'| - 1] == Last(es);
    assert Last(es) in es && !Link(r.next, r.prev, q', |q'| - 1);
  }

  /** Later writes of that removal leave prev alone, and all but the last one the head. */
  lemma {:induction false} CutKeeps(m: Mem, cur: int, j: nat, upto: nat)
    requires Sound(m) && 0 <= cur < |m.next| && 1 <= j <= upto <= 3
    ensures Cut(m, cur, First, j, upto).prev == m.prev && (upto < 3 ==> Cut(m, cur, First, j, upto).rxq == m.rxq)
    decreases upto - j
  {
    if j < upto {
      WriteSound(m, cur, First, j);
      CutKeeps(Write(m, cur, First, j), cur, j + 1, upto);
    }
  }

  /** The last of several, between its writes: the node before it is made the last, past those that arrived. */
  lemma Skipped(m: Mem, q: seq<int>, es: seq<int>)
    requires Sound(m) && Holds(m, q) && |q| > 1 && Arriving(m, q, es) && es != [] && 0 <= q[|q| - 1] < |m.next|
    ensures !Holds(Interrupted(m, q[|q| - 1], 1, es), Without(q, |q| - 1) + es)
  {
    var n := |q|;
    var cur, a := q[n - 1], q[n - 2];
    CutHolds(m, q, n - 1);
    assert Link(m.next, m.prev, q, n - 1) && Link(m.next, m.prev, q, n - 2);
    Differs(q, 0, n - 1);
    Differs(q, n - 2, n - 1);
    CutFrom(m, cur, Other, 1);
    var m1 := Write(m, cur, Other, 0);
    PrevKept(m1, es, cur);
    assert q[0] in q;
    NextKept(m1, es, cur);
    var m2 := AppendAll(m1, es);
    WriteSound(m2, cur, Other, 1);
    assert Cut(Write(m2, cur, Other, 1), cur, Other, 2, 2) == Write(m2, cur, Other, 1);
    var r, q' := Interrupted(m, cur, 1, es), Without(q, n - 1) + es;
    assert r.next[a] == q[0];
    assert q'[n - 2] == a && q'[n - 1] == es[0] && es[0] in es;
    assert !Link(r.next, r.prev, q', n - 2);
  }

  /**
   Packets that arrive during a removal, after its tests and j of its writes, end up behind the others if and only if
   the list has more packets than the one removed, and that one is not the first, from its first write on, nor the
   last, between its two writes.
   */
  lemma UnlinkExact(m: Mem, q: seq<int>, k: int, j: nat, es: seq<int>)
    requires Sound(m) && Holds(m, q) && Arriving(m, q, es) && es != [] && 0 <= k < |q| && 0 <= q[k] < |m.next|
    requires j < Writes(KindOf(m, q[k]))
    ensures Holds(Interrupted(m, q[k], j, es), Without(q, k) + es) <==> Harmless(|q|, k, j)
  {
    CutHolds(m, q, k);
    if Harmless(|q|, k, j) {
      NoHarm(m, q, k, j, es);
    } else if |q| == 1 {
      LostWithHead(m, q, es);
    } else if k == 0 {
      BrokenBack(m, q, j, es);
    } else {
      Skipped(m, q, es);
    }
  }

  predicate Harmless(n: nat, k: int, j: nat) {
    n > 1 && (j == 0 || 0 < k < n - 1)
  }
}
