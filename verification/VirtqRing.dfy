/**
 Ring arithmetic of a split virtqueue: 16-bit indices that wrap, and slots taken
 modulo the queue size.
 */
module VirtqRing {
  import opened Division

  const WRAP := 0x1_0000

  /** The queue sizes for which wrapping the index does not disturb the slots. */
  predicate GoodSize(n: int) {
    0 < n < WRAP && WRAP % n == 0
  }

  lemma {:induction false} AddMultiple(n: int, k: nat, r: int)
    requires 0 < n
    ensures (n * k + r) % n == r % n
  {
    if k > 0 {
      AddMultiple(n, k - 1, r);
      assert n * k + r == n * (k - 1) + r + n;
      AddOnce(n, n * (k - 1) + r);
    }
  }

  lemma AddOnce(n: int, x: int)
    requires 0 < n
    ensures (x + n) % n == x % n
  {
    var q, r := x / n, x % n;
    assert x + n == (q + 1) * n + r;
    Quotient(q + 1, r, n, x + n);
  }

  /** A wrapped index picks the same slot as the index it stands for. */
  lemma WrappedSlot(n: int, t: nat)
    requires GoodSize(n)
    ensures (t % WRAP) % n == t % n
  {
    var m, q, r := WRAP / n, t / WRAP, t % WRAP;
    assert WRAP == n * m;
    assert t == n * (m * q) + r by {
      assert WRAP * q == n * m * q;
      assert n * m * q == n * (m * q);
    }
    AddMultiple(n, m * q, r);
  }

  /** And only for those queue sizes: otherwise the first wrap moves to another slot. */
  lemma WrapNeedsGoodSize(n: int)
    requires 0 < n < WRAP
    ensures GoodSize(n) <==> 0x1_0000 % n == 0
    ensures GoodSize(n) <==> forall t: nat :: (t % WRAP) % n == t % n
  {
    if GoodSize(n) {
      forall t: nat ensures (t % WRAP) % n == t % n { WrappedSlot(n, t); }
    } else {
      assert (WRAP % WRAP) % n != WRAP % n;
    }
  }

  /** Fewer than n apart, different slots. */
  lemma DistinctSlots(n: int, t: int, u: int)
    requires 0 < n && 0 <= t < u < t + n
    ensures t % n != u % n
  {
    var q, r := t / n, u / n;
    assert t == n * q + t % n && u == n * r + u % n;
    assert (r - q) * n == n * r - n * q;
    if t % n == u % n {
      NoMultiple(r - q, n);
    }
  }

  lemma WrapNext(t: nat)
    ensures (t % WRAP + 1) % WRAP == (t + 1) % WRAP
  {}

  /** Two wrapped indices agree only if the indices are equal, when they are less than 2^16 apart. */
  lemma WrapEqual(t: nat, u: nat)
    requires t <= u < t + WRAP
    ensures t % WRAP == u % WRAP <==> t == u
  {}
}
