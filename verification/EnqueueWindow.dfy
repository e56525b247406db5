/**
 Interrupts that arrive inside virtioq_enqueue (src/dev/net_virtio.c), which reads the index, writes the slot and raises
 the index. The handler enqueues too: `before` after the index was read, `between` after the slot was written.
 Indices are counted without wrapping; VirtqRing says when the slots are the same.
 */
module EnqueueWindow {
  import opened VirtqRing

  function At(ring: seq<int>, t: nat): int
    requires ring != []
  {
    ring[t % |ring|]
  }

  function Put(ring: seq<int>, t: nat, d: int): (r: seq<int>)
    requires ring != []
    ensures |r| == |ring|
  {
    ring[t % |ring| := d]
  }

  /** Enqueues that are not interrupted themselves, from index t on. */
  function PutAll(ring: seq<int>, t: nat, es: seq<int>): (r: seq<int>)
    requires ring != []
    ensures |r| == |ring|
  {
    if es == [] then ring else Put(PutAll(ring, t, es[..|es| - 1]), t + |es| - 1, es[|es| - 1])
  }

  /** The ring after an interrupted enqueue of d at index p. */
  function Interrupted(ring: seq<int>, p: nat, d: int, before: seq<int>, between: seq<int>): (r: seq<int>)
    requires ring != []
    ensures |r| == |ring|
  {
    PutAll(Put(PutAll(ring, p, before), p, d), p + |before|, between)
  }

  /** What the device finds in the m slots from p on. */
  function Offered(ring: seq<int>, p: nat, m: nat): seq<int>
    requires ring != []
  {
    seq(m, i requires 0 <= i => At(ring, p + i))
  }

  lemma {:induction false} PutAllAt(ring: seq<int>, p: nat, es: seq<int>, i: nat)
    requires i < |ring| && |es| <= |ring|
    ensures At(PutAll(ring, p, es), p + i) == if i < |es| then es[i] else At(ring, p + i)
  {
    if es != [] {
      var last := |es| - 1;
      PutAllAt(ring, p, es[..last], i);
      if i < last { DistinctSlots(|ring|, p + i, p + last); }
      if last < i { DistinctSlots(|ring|, p + last, p + i); }
    }
  }

  /** The slot that the last increment publishes was written by nobody, if anything was enqueued in between. */
  lemma OfferedAt(ring: seq<int>, p: nat, d: int, before: seq<int>, between: seq<int>, i: nat)
    requires i <= |before| + |between| < |ring|
    ensures At(Interrupted(ring, p, d, before, between), p + i)
         == if i == 0 then (if before == [] && between != [] then between[0] else d)
            else if i < |before| then before[i]
            else if i < |before| + |between| then between[i - |before|]
            else At(ring, p + i)
  {
    var r1 := PutAll(ring, p, before);
    var r2 := Put(r1, p, d);
    PutAllAt(ring, p, before, i);
    if i > 0 { DistinctSlots(|ring|, p, p + i); }
    if i >= |before| {
      PutAllAt(r2, p + |before|, between, i - |before|);
    } else {
      Untouched(r2, p, |before|, between, i);
    }
  }

  lemma {:induction false} Untouched(ring: seq<int>, p: nat, b: nat, es: seq<int>, i: nat)
    requires i < b && b + |es| <= |ring|
    ensures At(PutAll(ring, p + b, es), p + i) == At(ring, p + i)
  {
    if es != [] {
      Untouched(ring, p, b, es[..|es| - 1], i);
      DistinctSlots(|ring|, p + i, p + b + |es| - 1);
    }
  }

  /** The entry that was overwritten. */
  function Lost(d: int, before: seq<int>): int { if before == [] then d else before[0] }

  /** Everything that should be in the slots but what was lost. */
  function Rest(d: int, before: seq<int>, between: seq<int>): seq<int> {
    if before == [] then between else [d] + before[1..] + between
  }

  lemma OfferedIs(ring: seq<int>, p: nat, d: int, before: seq<int>, between: seq<int>)
    requires 0 < |before| + |between| < |ring|
    ensures var m := |before| + |between|;
            Offered(Interrupted(ring, p, d, before, between), p, m + 1) == Rest(d, before, between) + [At(ring, p + m)]
  {
    var m, r := |before| + |between|, Interrupted(ring, p, d, before, between);
    var got, all := Offered(r, p, m + 1), Rest(d, before, between) + [At(ring, p + m)];
    forall i | 0 <= i <= m ensures got[i] == all[i] { OfferedAt(ring, p, d, before, between, i); }
    assert got == all;
  }

  lemma RestIs(d: int, before: seq<int>, between: seq<int>)
    ensures multiset([d] + before + between) == multiset(Rest(d, before, between)) + multiset{Lost(d, before)}
  {
    if before != [] { assert before == [before[0]] + before[1..]; }
    assert [d] + before + between == [d] + (before + between);
  }

  lemma Cancel(rest: seq<int>, x: int, y: int)
    ensures multiset(rest + [x]) == multiset(rest) + multiset{y} <==> x == y
  {
    assert multiset(rest + [x]) == multiset(rest) + multiset{x};
    if x != y { assert (multiset(rest) + multiset{x})[x] == multiset(rest)[x] + 1; }
  }

  /** The slots from p on hold these entries, in some order. */
  predicate Offers(ring: seq<int>, p: nat, entries: seq<int>)
    requires ring != []
  {
    multiset(Offered(ring, p, |entries|)) == multiset(entries)
  }

  lemma OffersRest(ring: seq<int>, p: nat, entries: seq<int>, rest: seq<int>, x: int, lost: int)
    requires ring != [] && Offered(ring, p, |entries|) == rest + [x]
    requires multiset(entries) == multiset(rest) + multiset{lost}
    ensures Offers(ring, p, entries) <==> x == lost
  {
    Cancel(rest, x, lost);
  }

  lemma EnqueueAlone(ring: seq<int>, p: nat, d: int)
    requires ring != []
    ensures Offers(Interrupted(ring, p, d, [], []), p, [d])
  {
    OfferedAt(ring, p, d, [], [], 0);
    assert Offered(Interrupted(ring, p, d, [], []), p, 1) == [d];
  }

  /**
   The slots offer exactly what was enqueued if and only if nothing came in between, or the slot behind happened to hold
   what was lost.
   */
  lemma EnqueueExact(ring: seq<int>, p: nat, d: int, before: seq<int>, between: seq<int>)
    requires |before| + |between| < |ring|
    ensures Offers(Interrupted(ring, p, d, before, between), p, [d] + before + between)
       <==> before + between == [] || At(ring, p + |before| + |between|) == Lost(d, before)
  {
    if before + between == [] {
      assert before == [] && between == [] && [d] + before + between == [d];
      EnqueueAlone(ring, p, d);
    } else {
      OfferedIs(ring, p, d, before, between);
      RestIs(d, before, between);
      OffersRest(Interrupted(ring, p, d, before, between), p, [d] + before + between, Rest(d, before, between),
                 At(ring, p + |before| + |between|), Lost(d, before));
    }
  }
}
