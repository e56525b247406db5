/**
 What a process sees through its page directory, and how many frames a range of pages still needs.
 */
module AddressSpace {
  import opened Options
  import opened PageWords
  import opened PageTables

  predicate UserAddress(x: int) { USER_BASE <= x < KERN_OFF }

  lemma PageOfAddress(x: int)
    requires UserAddress(x)
    ensures UserPage(x / PAGE) && 0 <= x % PAGE < PAGE && x == x / PAGE * PAGE + x % PAGE
  {}

  /** The byte at address x, or None when the page is not mapped. */
  function View(m: Mem, d: int, x: int): (r: Option<int>)
    requires FrameOk(m, d) && UserAddress(x)
  {
    PageOfAddress(x);
    var w := Walk(m, d, x / PAGE);
    if w.None? || !FrameOk(m, w.value) then None else Some(m.phys[w.value][x % PAGE])
  }

  // ---------- mapping pages ----------

  ghost predicate WalkKept(m: Mem, r: Mem, e: int, p: int)
    requires UserPage(p)
  {
    FrameOk(m, e) && FrameOk(r, e) && PteAt(r, e, p) == PteAt(m, e, p)
  }

  /** A page that was mapped keeps its entry, and one that was not has these flags if it is now. */
  ghost predicate Continued(m: Mem, r: Mem, e: int, p: int, fl: int)
    requires UserPage(p)
  {
    && FrameOk(m, e) && FrameOk(r, e)
    && (PteAt(m, e, p) != 0 ==> PteAt(r, e, p) == PteAt(m, e, p))
    && (PteAt(m, e, p) == 0 && PteAt(r, e, p) != 0 ==> PteAt(r, e, p) % PAGE == fl)
  }

  ghost predicate Backed(m: Mem, d: int, p: int)
    requires UserPage(p)
  {
    FrameOk(m, d) && Walk(m, d, p).Some?
  }

  predicate DataKept(m: Mem, r: Mem, f: int)
    requires |r.phys| == |m.phys|
  {
    0 <= f < |m.phys| ==> r.phys[f] == m.phys[f]
  }

  /** Only pages lo..hi of directory d may have become mapped, with the flags fl; no mapped page moved or changed its
      flags, here or elsewhere. */
  ghost predicate WalksKept(m: Mem, r: Mem, d: int, lo: int, hi: int, fl: int) {
    && (forall e, p :: IsDir(m, e) && UserPage(p) && !(e == d && lo <= p < hi) ==> WalkKept(m, r, e, p))
    && (forall p :: UserPage(p) && lo <= p < hi ==> Continued(m, r, d, p, fl))
  }

  /** As WalksKept, and no byte of a mapped page changed. */
  ghost predicate Grown(m: Mem, r: Mem, d: int, lo: int, hi: int, fl: int) {
    && Inv(r) && Later(m, r) && WalksKept(m, r, d, lo, hi, fl)
    && (forall f :: f in m.owner && m.owner[f].Data? ==> DataKept(m, r, f))
  }

  lemma GrownRefl(m: Mem, d: int, lo: int, fl: int)
    requires Inv(m) && IsDir(m, d)
    ensures Grown(m, m, d, lo, lo, fl)
  {
    forall e, p | IsDir(m, e) && UserPage(p) && !(e == d && lo <= p < lo) ensures WalkKept(m, m, e, p) {
      OwnedFrame(m, e);
    }
    forall f | f in m.owner ensures SameRole(m, m, f) {}
  }

  /** A page of one range stays where it was when a further range is mapped. */
  lemma WalksKeptJoin(a: Mem, b: Mem, c: Mem, d: int, lo: int, mid: int, top: int, hi: int, fl: int)
    requires Later(a, b) && WalksKept(a, b, d, lo, mid, fl) && WalksKept(b, c, d, top, hi, fl) && IsDir(a, d)
    requires (mid == top && lo <= mid <= hi) || (lo == hi && top <= lo <= mid)
    ensures WalksKept(a, c, d, if mid == top then lo else top, if mid == top then hi else mid, fl)
  {
    var low, high := if mid == top then lo else top, if mid == top then hi else mid;
    forall e, p | IsDir(a, e) && UserPage(p) && !(e == d && low <= p < high) ensures WalkKept(a, c, e, p) {
      assert SameRole(a, b, e);
      assert WalkKept(a, b, e, p) && WalkKept(b, c, e, p);
    }
    forall p | UserPage(p) && low <= p < high ensures Continued(a, c, d, p, fl) {
      assert SameRole(a, b, d);
      if lo <= p < mid { assert Continued(a, b, d, p, fl); } else { assert WalkKept(a, b, d, p); }
      if top <= p < hi { assert Continued(b, c, d, p, fl); } else { assert WalkKept(b, c, d, p); }
    }
  }

  lemma GrownJoin(a: Mem, b: Mem, c: Mem, d: int, lo: int, mid: int, hi: int, fl: int)
    requires Inv(a) && IsDir(a, d) && Grown(a, b, d, lo, mid, fl) && Grown(b, c, d, mid, hi, fl) && lo <= mid <= hi
    ensures Grown(a, c, d, lo, hi, fl)
  {
    LaterTransitive(a, b, c);
    WalksKeptJoin(a, b, c, d, lo, mid, mid, hi, fl);
    forall f | f in a.owner && a.owner[f].Data? ensures DataKept(a, c, f) {
      assert SameRole(a, b, f);
      assert DataKept(a, b, f) && DataKept(b, c, f);
    }
  }

  // ---------- storing bytes ----------

  /** A byte that could be read still reads the same. */
  ghost predicate ViewKept(m: Mem, r: Mem, e: int, x: int)
    requires UserAddress(x)
  {
    FrameOk(m, e) && FrameOk(r, e) && (View(m, e, x).Some? ==> View(r, e, x) == View(m, e, x))
  }

  ghost predicate Reads(m: Mem, d: int, x: int, byte: int)
    requires UserAddress(x)
  {
    FrameOk(m, d) && View(m, d, x) == Some(byte)
  }

  /** In directory d, `bytes` now stand at x; the pages they reach are mapped, and nothing else changed. */
  ghost predicate Stored(m: Mem, r: Mem, d: int, x: int, bytes: seq<int>) {
    && Inv(r) && Later(m, r) && WalksKept(m, r, d, x / PAGE, PagesUp(x + |bytes|), 7)
    && (forall p :: UserPage(p) && x / PAGE <= p < PagesUp(x + |bytes|) ==> Backed(r, d, p))
    && (forall k :: 0 <= k < |bytes| ==> ReadsAt(r, d, x, k, bytes))
    && (forall e, y :: IsDir(m, e) && UserAddress(y) && !(e == d && x <= y < x + |bytes|) ==> ViewKept(m, r, e, y))
  }

  ghost predicate ReadsAt(m: Mem, d: int, x: int, k: int, bytes: seq<int>)
    requires 0 <= k < |bytes|
  {
    UserAddress(x + k) && Reads(m, d, x + k, bytes[k])
  }

  lemma StoredNothing(m: Mem, d: int, x: int)
    requires Inv(m) && IsDir(m, d) && x % PAGE == 0
    ensures Stored(m, m, d, x, [])
  {
    GrownRefl(m, d, x / PAGE, 7);
    assert PagesUp(x) == x / PAGE;
    forall e, y | IsDir(m, e) && UserAddress(y) ensures ViewKept(m, m, e, y) { OwnedFrame(m, e); }
  }

  /** Mapping one page and copying into it stores the bytes. */
  lemma StoredPage(a: Mem, b: Mem, d: int, p: int, f: int, off: int, x: int, bytes: seq<int>)
    requires Inv(a) && IsDir(a, d) && UserPage(p) && Grown(a, b, d, p, p + 1, 7)
    requires FrameOk(b, d) && Walk(b, d, p) == Some(f) && FrameOk(b, f)
    requires 0 <= off && 0 < |bytes| && off + |bytes| <= PAGE && x == p * PAGE + off
    ensures Stored(a, Poke(b, f, Splice(b.phys[f], off, bytes)), d, x, bytes)
  {
    var frame := Splice(b.phys[f], off, bytes);
    var r := Poke(b, f, frame);
    assert SameRole(a, b, d);
    WalkOwner(b, d, p);
    PokeInv(b, f, frame);
    LaterTransitive(a, b, r);
    assert x / PAGE == p && PagesUp(x + |bytes|) == p + 1;
    forall e, q | IsDir(b, e) && UserPage(q) ensures WalkKept(b, r, e, q) { PokeWalk(b, f, frame, e, q); }
    assert WalksKept(a, r, d, p, p + 1, 7) by { PokedWalks(a, b, r, d, p); }
    assert Backed(r, d, p) by { assert WalkKept(b, r, d, p); }
    forall k | 0 <= k < |bytes| ensures ReadsAt(r, d, x, k, bytes) {
      assert WalkKept(b, r, d, p);
      assert (x + k) / PAGE == p && (x + k) % PAGE == off + k;
    }
    forall e, y | IsDir(a, e) && UserAddress(y) && !(e == d && x <= y < x + |bytes|) ensures ViewKept(a, r, e, y) {
      PageOfAddress(y);
      StoredElsewhere(a, b, r, d, p, f, off, bytes, e, y);
    }
  }

  lemma PokedWalks(a: Mem, b: Mem, r: Mem, d: int, p: int)
    requires Later(a, b) && IsDir(a, d) && WalksKept(a, b, d, p, p + 1, 7)
    requires forall e, q :: IsDir(b, e) && UserPage(q) ==> WalkKept(b, r, e, q)
    ensures WalksKept(a, r, d, p, p + 1, 7)
  {
    forall e, q | IsDir(a, e) && UserPage(q) && !(e == d && p <= q < p + 1) ensures WalkKept(a, r, e, q) {
      assert SameRole(a, b, e);
      assert WalkKept(a, b, e, q) && WalkKept(b, r, e, q);
    }
    forall q | UserPage(q) && p <= q < p + 1 ensures Continued(a, r, d, q, 7) {
      assert SameRole(a, b, d);
      assert Continued(a, b, d, q, 7) && WalkKept(b, r, d, q);
    }
  }

  lemma StoredElsewhere(a: Mem, b: Mem, r: Mem, d: int, p: int, f: int, off: int, bytes: seq<int>, e: int, y: int)
    requires Inv(a) && IsDir(a, d) && UserPage(p) && Grown(a, b, d, p, p + 1, 7) && IsDir(a, e) && UserAddress(y)
    requires FrameOk(b, d) && Walk(b, d, p) == Some(f) && FrameOk(b, f)
    requires 0 <= off && 0 < |bytes| && off + |bytes| <= PAGE
    requires r == Poke(b, f, Splice(b.phys[f], off, bytes)) && Inv(r)
    requires UserPage(y / PAGE) && WalkKept(b, r, e, y / PAGE)
    requires !(e == d && p * PAGE + off <= y < p * PAGE + off + |bytes|)
    ensures ViewKept(a, r, e, y)
  {
    var q := y / PAGE;
    assert SameRole(a, b, e) && SameRole(a, b, d);
    WalkOwner(a, e, q);
    if View(a, e, y).Some? {
      var g := Walk(a, e, q).value;
      if e == d && q == p { assert Continued(a, b, d, p, 7); } else { assert WalkKept(a, b, e, q); }
      assert DataKept(a, b, g);
      assert FrameOk(r, g);
      if g == f {
        NoSharing(b, d, p, e, q);
        assert y == p * PAGE + y % PAGE;
      }
    }
  }

  /** A byte stored first survives a store elsewhere. */
  lemma ReadsKept(b: Mem, c: Mem, d: int, x: int, k: int, s: seq<int>, y: int, t: seq<int>)
    requires IsDir(b, d) && Stored(b, c, d, y, t) && 0 <= k < |s| && ReadsAt(b, d, x, k, s)
    requires !(y <= x + k < y + |t|)
    ensures ReadsAt(c, d, x, k, s)
  {
    assert ViewKept(b, c, d, x + k);
  }

  lemma ViewsKept(a: Mem, b: Mem, c: Mem, d: int, x: int, s: seq<int>, y: int, t: seq<int>, e: int, z: int)
    requires Later(a, b) && Stored(a, b, d, x, s) && Stored(b, c, d, y, t) && IsDir(a, e) && UserAddress(z)
    requires !(e == d && (x <= z < x + |s| || y <= z < y + |t|))
    ensures ViewKept(a, c, e, z)
  {
    assert SameRole(a, b, e);
    assert ViewKept(a, b, e, z) && ViewKept(b, c, e, z);
  }

  /** Two stores that meet at a page boundary are one store: the second above the first. */
  lemma StoredAbove(a: Mem, b: Mem, c: Mem, d: int, x: int, s: seq<int>, q: int, t: seq<int>)
    requires Inv(a) && IsDir(a, d) && x + |s| == q * PAGE
    requires Stored(a, b, d, x, s) && Stored(b, c, d, x + |s|, t)
    ensures Stored(a, c, d, x, s + t)
  {
    var y, u := x + |s|, s + t;
    LaterTransitive(a, b, c);
    assert SameRole(a, b, d);
    var lo, hi := x / PAGE, PagesUp(x + |u|);
    assert PagesUp(y) == q && y / PAGE == q && lo <= q <= hi && y + |t| == x + |u|;
    WalksKeptJoin(a, b, c, d, lo, q, q, hi, 7);
    forall p | UserPage(p) && lo <= p < hi ensures Backed(c, d, p) {
      if p < q { assert Backed(b, d, p) && WalkKept(b, c, d, p); }
    }
    forall k | 0 <= k < |u| ensures ReadsAt(c, d, x, k, u) {
      if k < |s| {
        assert ReadsAt(b, d, x, k, s);
        ReadsKept(b, c, d, x, k, s, y, t);
      } else {
        assert ReadsAt(c, d, y, k - |s|, t);
      }
    }
    forall e, z | IsDir(a, e) && UserAddress(z) && !(e == d && x <= z < x + |u|) ensures ViewKept(a, c, e, z) {
      ViewsKept(a, b, c, d, x, s, y, t, e, z);
    }
  }

  /** The same with the second store below the first. */
  lemma StoredBelow(a: Mem, b: Mem, c: Mem, d: int, q: int, s: seq<int>, y: int, t: seq<int>)
    requires Inv(a) && IsDir(a, d) && y + |t| == q * PAGE
    requires Stored(a, b, d, q * PAGE, s) && Stored(b, c, d, y, t)
    ensures Stored(a, c, d, y, t + s)
  {
    var x, u := q * PAGE, t + s;
    LaterTransitive(a, b, c);
    assert SameRole(a, b, d);
    var lo, hi := y / PAGE, PagesUp(y + |u|);
    assert PagesUp(x) == q && x / PAGE == q && lo <= q <= hi && x + |s| == y + |u|;
    WalksKeptJoin(a, b, c, d, q, hi, lo, q, 7);
    forall p | UserPage(p) && lo <= p < hi ensures Backed(c, d, p) {
      if p >= q { assert Backed(b, d, p) && WalkKept(b, c, d, p); }
    }
    forall k | 0 <= k < |u| ensures ReadsAt(c, d, y, k, u) {
      if k < |t| {
        assert ReadsAt(c, d, y, k, t);
      } else {
        assert ReadsAt(b, d, x, k - |t|, s);
        ReadsKept(b, c, d, x, k - |t|, s, y, t);
      }
    }
    forall e, z | IsDir(a, e) && UserAddress(z) && !(e == d && y <= z < y + |u|) ensures ViewKept(a, c, e, z) {
      ViewsKept(a, b, c, d, x, s, y, t, e, z);
    }
  }

  lemma ViewGrown(a: Mem, b: Mem, d: int, p: int, e: int, y: int)
    requires Inv(a) && IsDir(a, e) && Grown(a, b, d, p, p, 7) && UserAddress(y)
    ensures ViewKept(a, b, e, y)
  {
    PageOfAddress(y);
    WalkOwner(a, e, y / PAGE);
    assert WalkKept(a, b, e, y / PAGE);
    if View(a, e, y).Some? { assert DataKept(a, b, Walk(a, e, y / PAGE).value); }
  }

  /** What was stored stays stored when the tables merely grow. */
  lemma StoredThenGrown(m: Mem, a: Mem, b: Mem, d: int, x: int, bytes: seq<int>, p: int)
    requires Inv(m) && IsDir(m, d) && Stored(m, a, d, x, bytes) && Grown(a, b, d, p, p, 7)
    ensures Stored(m, b, d, x, bytes)
  {
    LaterTransitive(m, a, b);
    assert SameRole(m, a, d);
    var lo, hi := x / PAGE, PagesUp(x + |bytes|);
    forall e, q | IsDir(m, e) && UserPage(q) && !(e == d && lo <= q < hi) ensures WalkKept(m, b, e, q) {
      assert SameRole(m, a, e);
      assert WalkKept(m, a, e, q) && WalkKept(a, b, e, q);
    }
    forall q | UserPage(q) && lo <= q < hi ensures Continued(m, b, d, q, 7) && Backed(b, d, q) {
      assert Continued(m, a, d, q, 7) && Backed(a, d, q) && WalkKept(a, b, d, q);
    }
    forall k | 0 <= k < |bytes| ensures ReadsAt(b, d, x, k, bytes) {
      assert ReadsAt(a, d, x, k, bytes);
      ViewGrown(a, b, d, p, d, x + k);
    }
    forall e, y | IsDir(m, e) && UserAddress(y) && !(e == d && x <= y < x + |bytes|) ensures ViewKept(m, b, e, y) {
      assert SameRole(m, a, e);
      assert ViewKept(m, a, e, y);
      ViewGrown(a, b, d, p, e, y);
    }
  }

  // ---------- other directories ----------

  /** Page p of directory e has the entry it had, and every byte of it that could be read is the same. */
  ghost predicate Untouched(m: Mem, r: Mem, e: int, y: int)
    requires UserAddress(y)
  {
    PageOfAddress(y);
    WalkKept(m, r, e, y / PAGE) && ViewKept(m, r, e, y)
  }

  /** No other process notices anything. */
  ghost predicate Isolated(m: Mem, r: Mem, d: int) {
    forall e, y :: IsDir(m, e) && e != d && UserAddress(y) ==> Untouched(m, r, e, y)
  }

  lemma IsolatedRefl(m: Mem, d: int)
    requires Inv(m)
    ensures Isolated(m, m, d)
  {
    forall e, y | IsDir(m, e) && e != d && UserAddress(y) ensures Untouched(m, m, e, y) { OwnedFrame(m, e); }
  }

  lemma StoredIsolates(m: Mem, r: Mem, d: int, x: int, bytes: seq<int>)
    requires Stored(m, r, d, x, bytes)
    ensures Isolated(m, r, d)
  {
    forall e, y | IsDir(m, e) && e != d && UserAddress(y) ensures Untouched(m, r, e, y) {
      PageOfAddress(y);
      assert WalkKept(m, r, e, y / PAGE) && ViewKept(m, r, e, y);
    }
  }

  lemma GrownIsolates(m: Mem, r: Mem, d: int, p: int)
    requires Inv(m) && Grown(m, r, d, p, p, 7)
    ensures Isolated(m, r, d)
  {
    forall e, y | IsDir(m, e) && e != d && UserAddress(y) ensures Untouched(m, r, e, y) {
      PageOfAddress(y);
      assert WalkKept(m, r, e, y / PAGE);
      ViewGrown(m, r, d, p, e, y);
    }
  }

  lemma IsolatedTransitive(a: Mem, b: Mem, c: Mem, d: int)
    requires Later(a, b) && Isolated(a, b, d) && Isolated(b, c, d)
    ensures Isolated(a, c, d)
  {
    forall e, y | IsDir(a, e) && e != d && UserAddress(y) ensures Untouched(a, c, e, y) {
      assert SameRole(a, b, e);
      assert Untouched(a, b, e, y) && Untouched(b, c, e, y);
    }
  }
}
