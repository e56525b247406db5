/**
 The global receive queue of the network stack: a circular doubly linked list of packet nodes that
 live inside the packet buffers. A node is named by the index of its buffer; -1 stands for NULL.
 */
module ReceiveList {

  function Succ(n: nat, i: int): (j: int)
    requires 0 <= i < n
    ensures 0 <= j < n
  {
    if i + 1 == n then 0 else i + 1
  }

  /** The i-th edge of the ring, in both directions. */
  predicate Link(next: seq<int>, prev: seq<int>, q: seq<int>, i: int)
    requires 0 <= i < |q|
  {
    var a, b := q[i], q[Succ(|q|, i)];
    0 <= a < |next| == |prev| && 0 <= b < |next| && next[a] == b && prev[b] == a
  }

  predicate Differ(q: seq<int>, i: int, j: int)
    requires 0 <= i < |q| && 0 <= j < |q|
  {
    q[i] != q[j]
  }

  ghost predicate Distinct(q: seq<int>) {
    forall i, j :: 0 <= i < j < |q| ==> Differ(q, i, j)
  }

  ghost predicate Ring(next: seq<int>, prev: seq<int>, q: seq<int>) {
    forall i :: 0 <= i < |q| ==> Link(next, prev, q, i)
  }

  function Without(q: seq<int>, i: int): (r: seq<int>)
    requires 0 <= i < |q|
    ensures |r| == |q| - 1
    ensures forall j {:trigger r[j]} :: 0 <= j < |r| ==> r[j] == if j < i then q[j] else q[j + 1]
  {
    q[..i] + q[i + 1..]
  }

  lemma Differs(q: seq<int>, i: int, j: int)
    requires Distinct(q) && 0 <= i < |q| && 0 <= j < |q| && i != j
    ensures q[i] != q[j]
  {
    assert Differ(q, if i < j then i else j, if i < j then j else i);
  }

  /** Appending: the new node goes between the last and the first. */
  lemma AppendRing(next: seq<int>, prev: seq<int>, q: seq<int>, d: int)
    requires Ring(next, prev, q) && Distinct(q) && q != [] && d !in q && 0 <= d < |next| == |prev|
    requires 0 <= q[0] < |next| && 0 <= q[|q| - 1] < |next|
    ensures Ring(next[d := q[0]][q[|q| - 1] := d], prev[q[0] := d][d := q[|q| - 1]], q + [d]) && Distinct(q + [d])
  {
    var n, r := |q|, q + [d];
    var next', prev' := next[d := q[0]][q[n - 1] := d], prev[q[0] := d][d := q[n - 1]];
    forall i | 0 <= i < n + 1 ensures Link(next', prev', r, i) {
      if i < n - 1 {
        assert Link(next, prev, q, i);
        Differs(q, i, n - 1);
        Differs(q, i + 1, 0);
      }
    }
    forall i, j | 0 <= i < j < n + 1 ensures Differ(r, i, j) {
      if j < n { Differs(q, i, j); }
    }
  }

  /** Unlinking: the neighbours of the removed node point at each other. */
  lemma RemoveRing(next: seq<int>, prev: seq<int>, q: seq<int>, k: int, a: int, b: int)
    requires Ring(next, prev, q) && Distinct(q) && |q| > 1 && 0 <= k < |q| && |next| == |prev|
    requires 0 <= a < |next| && 0 <= b < |next|
    requires a == q[if k == 0 then |q| - 1 else k - 1] && b == q[Succ(|q|, k)]
    ensures Ring(next[a := b], prev[b := a], Without(q, k))
  {
    var r, next', prev' := Without(q, k), next[a := b], prev[b := a];
    forall i | 0 <= i < |r| ensures Link(next', prev', r, i) {
      RemoveLink(next, prev, q, k, a, b, i);
    }
  }

  lemma RemoveLink(next: seq<int>, prev: seq<int>, q: seq<int>, k: int, a: int, b: int, i: int)
    requires Ring(next, prev, q) && Distinct(q) && |q| > 1 && 0 <= k < |q| && |next| == |prev|
    requires 0 <= a < |next| && 0 <= b < |next| && 0 <= i < |q| - 1
    requires a == q[if k == 0 then |q| - 1 else k - 1] && b == q[Succ(|q|, k)]
    ensures Link(next[a := b], prev[b := a], Without(q, k), i)
  {
    var n := |q|;
    var before, after := if k == 0 then n - 1 else k - 1, Succ(n, k);
    var j := if i < k then i else i + 1;
    assert Link(next, prev, q, j);
    if j != before {
      Differs(q, j, before);
      var j' := Succ(n, j);
      assert j' != k && j' != after;
      Differs(q, j', after);
    }
  }

  // ---------- the list in memory ----------

  datatype Mem = Mem(rxq: int, next: seq<int>, prev: seq<int>)

  /** Memory holds the circular list of these nodes, in this order. */
  ghost predicate Holds(m: Mem, q: seq<int>) {
    && |m.next| == |m.prev| && Distinct(q) && Ring(m.next, m.prev, q)
    && m.rxq == (if q == [] then -1 else q[0])
  }

  predicate Inside(m: Mem, i: int)
    requires 0 <= i < |m.next| == |m.prev|
  {
    0 <= m.next[i] < |m.next| && 0 <= m.prev[i] < |m.next|
  }

  /** No pointer leads astray. */
  predicate Sound(m: Mem) {
    && |m.next| == |m.prev| && -1 <= m.rxq < |m.next|
    && forall i :: 0 <= i < |m.next| ==> Inside(m, i)
  }

  /** The tail of net_receive_driver_frame. */
  function Append(m: Mem, d: int): (r: Mem)
    requires Sound(m) && 0 <= d < |m.next|
    ensures |r.next| == |m.next| && |r.prev| == |m.prev|
  {
    if m.rxq != -1 then
      assert Inside(m, m.rxq);
      var last := m.prev[m.rxq];
      Mem(m.rxq, m.next[d := m.rxq][last := d], m.prev[m.rxq := d][d := last])
    else
      Mem(d, m.next[d := d], m.prev[d := d])
  }

  lemma AppendSound(m: Mem, d: int)
    requires Sound(m) && 0 <= d < |m.next|
    ensures Sound(Append(m, d))
  {
    var r := Append(m, d);
    forall i | 0 <= i < |r.next| ensures Inside(r, i) { assert Inside(m, i); assert m.rxq != -1 ==> Inside(m, m.rxq); }
  }

  lemma AppendHolds(m: Mem, q: seq<int>, d: int)
    requires Sound(m) && Holds(m, q) && 0 <= d < |m.next| && d !in q
    ensures Holds(Append(m, d), q + [d])
  {
    if q != [] {
      assert Link(m.next, m.prev, q, |q| - 1) && Link(m.next, m.prev, q, 0);
      AppendRing(m.next, m.prev, q, d);
    } else {
      var r := Append(m, d);
      assert Link(r.next, r.prev, [d], 0);
    }
  }

  /** Which of the three cases of the removal applies. */
  datatype Kind = Only | First | Other

  function KindOf(m: Mem, cur: int): Kind
    requires 0 <= cur < |m.next|
  {
    if m.rxq != cur then Other else if m.next[cur] == cur then Only else First
  }

  function Writes(kind: Kind): nat { match kind case Only => 1 case First => 3 case Other => 2 }

  /** The j-th write of a removal. */
  function Write(m: Mem, cur: int, kind: Kind, j: nat): (r: Mem)
    requires Sound(m) && 0 <= cur < |m.next|
    ensures |r.next| == |m.next| && |r.prev| == |m.prev|
  {
    assert Inside(m, cur);
    if kind == Only then m.(rxq := -1)
    else if j == 0 then m.(prev := m.prev[m.next[cur] := m.prev[cur]])
    else if j == 1 then m.(next := m.next[m.prev[cur] := m.next[cur]])
    else m.(rxq := m.next[cur])
  }

  lemma WriteSound(m: Mem, cur: int, kind: Kind, j: nat)
    requires Sound(m) && 0 <= cur < |m.next|
    ensures Sound(Write(m, cur, kind, j))
  {
    var r := Write(m, cur, kind, j);
    assert Inside(m, cur);
    forall i | 0 <= i < |r.next| ensures Inside(r, i) { assert Inside(m, i); }
  }

  /** The writes from..upto of a removal. */
  function Cut(m: Mem, cur: int, kind: Kind, from: nat, upto: nat): (r: Mem)
    requires Sound(m) && 0 <= cur < |m.next|
    ensures Sound(r) && |r.next| == |m.next|
    decreases upto - from
  {
    if from >= upto then m
    else
      WriteSound(m, cur, kind, from);
      Cut(Write(m, cur, kind, from), cur, kind, from + 1, upto)
  }

  /** The removed node is alone, or has neighbours that are other nodes. */
  lemma CutKind(m: Mem, q: seq<int>, k: int)
    requires Sound(m) && Holds(m, q) && 0 <= k < |q| && 0 <= q[k] < |m.next|
    ensures KindOf(m, q[k]) == if k > 0 then Other else if |q| == 1 then Only else First
    ensures m.prev[q[k]] == q[if k == 0 then |q| - 1 else k - 1] && m.next[q[k]] == q[Succ(|q|, k)]
    ensures |q| > 1 ==> m.prev[q[k]] != q[k] && m.next[q[k]] != q[k]
  {
    var before := if k == 0 then |q| - 1 else k - 1;
    assert Link(m.next, m.prev, q, k) && Link(m.next, m.prev, q, before);
    if k != 0 { Differs(q, 0, k); }
    if |q| > 1 {
      Differs(q, before, k);
      Differs(q, k, Succ(|q|, k));
    }
  }

  lemma CutOnly(m: Mem, q: seq<int>)
    requires Sound(m) && Holds(m, q) && |q| == 1 && 0 <= q[0] < |m.next|
    ensures Holds(Cut(m, q[0], Only, 0, 1), Without(q, 0))
  {
    CutKind(m, q, 0);
    CutStep(m, q[0]);
  }

  /** With the neighbours pointing at each other the rest is a ring. */
  lemma CutRing(m: Mem, q: seq<int>, k: int)
    requires Sound(m) && Holds(m, q) && |q| > 1 && 0 <= k < |q| && 0 <= q[k] < |m.next|
    ensures Inside(m, q[k]) && Distinct(Without(q, k))
    ensures var a, b := m.prev[q[k]], m.next[q[k]]; Ring(m.next[a := b], m.prev[b := a], Without(q, k))
  {
    CutKind(m, q, k);
    assert Inside(m, q[k]);
    WithoutDistinct(q, k);
    RemoveRing(m.next, m.prev, q, k, m.prev[q[k]], m.next[q[k]]);
  }

  lemma CutFirst(m: Mem, q: seq<int>)
    requires Sound(m) && Holds(m, q) && |q| > 1 && 0 <= q[0] < |m.next|
    ensures Holds(Cut(m, q[0], First, 0, 3), Without(q, 0))
  {
    CutKind(m, q, 0);
    CutRing(m, q, 0);
    CutStep(m, q[0]);
  }

  lemma CutOther(m: Mem, q: seq<int>, k: int)
    requires Sound(m) && Holds(m, q) && 0 < k < |q| && 0 <= q[k] < |m.next|
    ensures Holds(Cut(m, q[k], Other, 0, 2), Without(q, k))
  {
    CutKind(m, q, k);
    CutRing(m, q, k);
    CutStep(m, q[k]);
  }

  /** The whole removal takes the node out of the list. */
  lemma CutHolds(m: Mem, q: seq<int>, k: int)
    requires Sound(m) && Holds(m, q) && 0 <= k < |q| && 0 <= q[k] < |m.next|
    ensures Holds(Cut(m, q[k], KindOf(m, q[k]), 0, Writes(KindOf(m, q[k]))), Without(q, k))
    ensures KindOf(m, q[k]) == if k > 0 then Other else if |q| == 1 then Only else First
  {
    CutKind(m, q, k);
    if k > 0 { CutOther(m, q, k); } else if |q| == 1 { CutOnly(m, q); } else { CutFirst(m, q); }
  }

  /** The writes of a removal, written out. */
  lemma CutStep(m: Mem, cur: int)
    requires Sound(m) && 0 <= cur < |m.next|
    ensures Inside(m, cur)
    ensures var p := m.prev[m.next[cur] := m.prev[cur]];
            && 0 <= p[cur] < |m.next|
            && var n := m.next[p[cur] := m.next[cur]];
               Cut(m, cur, KindOf(m, cur), 0, Writes(KindOf(m, cur))) ==
                 match KindOf(m, cur)
                 case Only => m.(rxq := -1)
                 case First => Mem(n[cur], n, p)
                 case Other => Mem(m.rxq, n, p)
  {
    var kind := KindOf(m, cur);
    assert Inside(m, cur);
    WriteSound(m, cur, kind, 0);
    var m1 := Write(m, cur, kind, 0);
    assert Inside(m1, cur);
    if kind != Only {
      WriteSound(m1, cur, kind, 1);
      var m2 := Write(m1, cur, kind, 1);
      if kind == First {
        WriteSound(m2, cur, kind, 2);
        var m3 := Write(m2, cur, kind, 2);
        assert Cut(m3, cur, kind, 3, 3) == m3;
        assert Cut(m2, cur, kind, 2, 3) == m3;
      } else {
        assert Cut(m2, cur, kind, 2, 2) == m2;
      }
      assert Cut(m1, cur, kind, 1, Writes(kind)) == Cut(m2, cur, kind, 2, Writes(kind));
    }
  }

  lemma HeadIsNode(m: Mem, q: seq<int>)
    requires Holds(m, q)
    ensures q != [] <==> m.rxq != -1
    ensures q != [] ==> 0 <= m.rxq < |m.next|
  {
    if q != [] { assert Link(m.next, m.prev, q, 0); }
  }

  class NetStack {
    var rxq: int
    var next: seq<int>
    var prev: seq<int>
    ghost var q: seq<int>

    ghost function Value(): Mem
      reads this
    {
      Mem(rxq, next, prev)
    }

    ghost predicate Valid()
      reads this
    {
      Sound(Value()) && Holds(Value(), q)
    }

    constructor (buffers: nat)
      ensures Valid() && q == [] && |next| == buffers
    {
      rxq, q := -1, [];
      next, prev := seq(buffers, _ => 0), seq(buffers, _ => 0);
      new;
      assert forall i :: 0 <= i < buffers ==> Inside(Value(), i);
    }

    /** The tail of net_receive_driver_frame. */
    method Enqueue(elem: int)
      requires Valid() && 0 <= elem < |next| && elem !in q
      modifies this
      ensures Valid() && q == old(q) + [elem] && |next| == old(|next|)
      ensures Value() == Append(old(Value()), elem)
    {
      ghost var m := Value();
      HeadIsNode(m, q);
      AppendHolds(m, q, elem);
      AppendSound(m, elem);
      if rxq != -1 {
        assert Inside(m, rxq);
        var last := prev[rxq];
        prev := prev[rxq := elem];
        next := next[elem := rxq];
        next := next[last := elem];
        prev := prev[elem := last];
      } else {
        rxq := elem;
        next, prev := next[elem := elem], prev[elem := elem];
      }
      q := q + [elem];
    }

    /**
     One walk of net_wait_udp4 over the list: takes out the first packet that matches, in order of
     arrival, or finds that none does.
     */
    method TakeMatching(matches: int -> bool) returns (nbuf: int, ghost k: int)
      requires Valid()
      modifies this
      ensures Valid() && 0 <= k <= |old(q)| && |next| == old(|next|)
      ensures forall i :: 0 <= i < k ==> !matches(old(q)[i])
      ensures k == |old(q)| ==> nbuf == -1 && q == old(q)
      ensures k < |old(q)| ==> nbuf == old(q)[k] && matches(nbuf) && q == Without(old(q), k)
    {
      k := 0;
      HeadIsNode(Value(), q);
      if rxq != -1 {
        var cur := rxq;
        while true
          invariant 0 <= k < |q| && cur == q[k] && Valid() && q == old(q) && |next| == old(|next|)
          invariant forall i :: 0 <= i < k ==> !matches(q[i])
          decreases |q| - k
        {
          assert Link(next, prev, q, k);
          if matches(cur) {
            Unlink(cur, k);
            return cur, k;
          }
          cur := next[cur];
          k := k + 1;
          if cur == rxq {
            if k < |q| { Differs(q, 0, k); }
            break;
          }
        }
      }
      return -1, k;
    }

    /** The three cases of the removal. */
    method Unlink(cur: int, ghost k: int)
      requires Valid() && 0 <= k < |q| && cur == q[k] && 0 <= cur < |next|
      modifies this
      ensures Valid() && q == Without(old(q), k) && |next| == old(|next|)
      ensures var m := old(Value()); Value() == Cut(m, cur, KindOf(m, cur), 0, Writes(KindOf(m, cur)))
    {
      ghost var m := Value();
      CutHolds(m, q, k);
      CutStep(m, cur);
      assert Inside(m, cur);
      if rxq == cur {
        if next[cur] == cur {
          rxq := -1;
        } else {
          prev := prev[next[cur] := prev[cur]];
          next := next[prev[cur] := next[cur]];
          rxq := next[cur];
        }
      } else {
        prev := prev[next[cur] := prev[cur]];
        next := next[prev[cur] := next[cur]];
      }
      q := Without(q, k);
    }
  }

  lemma WithoutDistinct(q: seq<int>, k: int)
    requires Distinct(q) && 0 <= k < |q|
    ensures Distinct(Without(q, k))
  {
    var r := Without(q, k);
    forall i, j | 0 <= i < j < |r| ensures Differ(r, i, j) {
      Differs(q, if i < k then i else i + 1, if j < k then j else j + 1);
    }
  }
}
