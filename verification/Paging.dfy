/**
 pagedir_get_or_new in two phases, on values: first the page table, then the page.
 */
module Paging {
  import opened PageWords
  import opened PageTables
  import opened AddressSpace
  import opened FrameCount

  /** Phase one: the page table of p exists unless memory is full. */
  function WithTable(m: Mem, d: int, p: int): (r: Mem)
    requires FrameOk(m, d) && UserPage(p) && d < m.edge
  {
    PageParts(p);
    if Word(m.phys[d], PdeOf(p)) == 0 && CanGrow(m) then NewTable(m, d, PdeOf(p)) else m
  }

  ghost predicate TableReady(m: Mem, d: int, p: int)
    requires UserPage(p)
  {
    && Inv(m) && IsDir(m, d) && FrameOk(m, d)
    && var e := Word(m.phys[d], PdeOf(p)); var t := e / PAGE;
       e != 0 && t in m.owner && m.owner[t] == Table(d, PdeOf(p)) && FrameOk(m, t)
  }

  /** Of the flags, present and user are set, and every other bit is the mask's. */
  predicate Flagged(e: int, mask: int) {
    forall b: nat :: b < 12 ==> Bit(e, b) == (b == 0 || b == 2 || Bit(mask, b))
  }

  /** Phase two: the page itself exists unless memory is full. */
  function WithPage(m: Mem, d: int, p: int, mask: int): (r: Mem)
    requires UserPage(p) && TableReady(m, d, p)
  {
    PageParts(p);
    var t := Word(m.phys[d], PdeOf(p)) / PAGE;
    if Word(m.phys[t], PteOf(p)) == 0 && CanGrow(m) then NewPage(m, t, PteOf(p), mask) else m
  }

  lemma NewTableDone(m: Mem, d: int, p: int, fl: int)
    requires Inv(m) && IsDir(m, d) && UserPage(p) && FrameOk(m, d) && d < m.edge && CanGrow(m)
    requires Word(m.phys[d], PdeOf(p)) == 0
    ensures var r := WithTable(m, d, p);
            && TableReady(r, d, p) && Grown(m, r, d, p, p, fl) && r.edge == m.edge + 1
            && (forall i :: 0 <= i < WORDS && i != PdeOf(p) ==> EntryKept(m, r, d, i))
            && Walk(m, d, p).None? && WalkKept(m, r, d, p) && Word(r.phys[d], PdeOf(p)) == m.edge * 4096 + 0x1F
  {
    PageParts(p);
    var i, r := PdeOf(p), WithTable(m, d, p);
    NewTableInv(m, d, i);
    EdgeIsFree(m);
    forall e, q | IsDir(m, e) && UserPage(q) ensures WalkKept(m, r, e, q) { NewTableWalk(m, d, i, e, q); }
    forall f | f in m.owner && m.owner[f].Data? ensures DataKept(m, r, f) {}
    EntryParts(m.edge, PDE_FLAGS);
    forall k | 0 <= k < WORDS ensures k != i ==> EntryKept(m, r, d, k) {
      PutGet(m.phys[d], i, Entry(m.edge, PDE_FLAGS), k);
    }
    PutGet(m.phys[d], i, Entry(m.edge, PDE_FLAGS), i);
    assert SameRole(m, r, d);
    assert WalkKept(m, r, d, p);
    assert FrameOk(r, m.edge);
  }

  lemma OldTableReady(m: Mem, d: int, p: int)
    requires Inv(m) && IsDir(m, d) && UserPage(p) && FrameOk(m, d) && Word(m.phys[d], PdeOf(p)) != 0
    ensures TableReady(m, d, p)
  {
    TableOf(m, d, p);
  }

  /** A page that is mapped already is found, and nothing changes. */
  lemma OldPageDone(m: Mem, d: int, p: int, mask: int)
    requires UserPage(p) && TableReady(m, d, p) && Walk(m, d, p).Some?
    ensures WithPage(m, d, p, mask) == m && MapsPage(m, m, d, p, UserPresentFlags(mask))
  {
    PageParts(p);
    assert forall f :: f in m.owner ==> SameRole(m, m, f);
    forall e, q | IsDir(m, e) && UserPage(q) ensures WalkKept(m, m, e, q) { OwnedFrame(m, e); }
    forall i | 0 <= i < WORDS ensures EntryKept(m, m, d, i) {}
  }

  /** The new entry names the new frame; its bits 0 and 2 are set, and its other flag bits are those of the mask. */
  lemma NewEntry(m: Mem, d: int, p: int, mask: int)
    requires UserPage(p) && TableReady(m, d, p) && Walk(m, d, p).None? && CanGrow(m)
    ensures FrameOk(WithPage(m, d, p, mask), d)
    ensures PteAt(WithPage(m, d, p, mask), d, p) == Entry(m.edge, UserPresentFlags(mask))
    ensures PteAt(WithPage(m, d, p, mask), d, p) / 4096 == m.edge
    ensures Flagged(PteAt(WithPage(m, d, p, mask), d, p), mask)
  {
    PageParts(p);
    UserPresentFlagsSet(mask);
    EntryParts(m.edge, UserPresentFlags(mask));
    PutGet(m.phys[Word(m.phys[d], PdeOf(p)) / PAGE], PteOf(p), Entry(m.edge, UserPresentFlags(mask)), PteOf(p));
    forall b: nat | b < 12
      ensures Bit(Entry(m.edge, UserPresentFlags(mask)), b) == (b == 0 || b == 2 || Bit(mask, b))
    {
      FlagBits(m.edge, mask, b);
    }
  }

  lemma NewPageDone(m: Mem, d: int, p: int, mask: int)
    requires UserPage(p) && TableReady(m, d, p) && Walk(m, d, p).None? && CanGrow(m)
    ensures MapsPage(m, WithPage(m, d, p, mask), d, p, UserPresentFlags(mask))
  {
    PageParts(p);
    var fl := UserPresentFlags(mask);
    var t, j, r := Word(m.phys[d], PdeOf(p)) / PAGE, PteOf(p), WithPage(m, d, p, mask);
    NewPageInv(m, t, j, mask);
    NewPageWalk(m, t, j, mask, d, p);
    forall e, q | IsDir(m, e) && UserPage(q) && !(e == d && p <= q < p + 1) ensures WalkKept(m, r, e, q) {
      if e == d && PdeOf(q) == PdeOf(p) && PteOf(q) == j { PageUnique(p, q); }
      NewPageWalk(m, t, j, mask, e, q);
    }
    forall q | UserPage(q) && p <= q < p + 1 ensures Continued(m, r, d, q, fl) {}
    forall f | f in m.owner && m.owner[f].Data? ensures DataKept(m, r, f) {}
    forall i | 0 <= i < WORDS && i != PdeOf(p) ensures EntryKept(m, r, d, i) {}
  }

  /** Both phases together, when the first one made the table. */
  lemma BothPhases(m: Mem, m1: Mem, r: Mem, d: int, p: int, fl: int)
    requires Inv(m) && IsDir(m, d) && UserPage(p) && FrameOk(m, d) && Word(m.phys[d], PdeOf(p)) == 0
    requires Grown(m, m1, d, p, p, fl) && m1.edge == m.edge + 1 && TableReady(m1, d, p)
    requires Word(m1.phys[d], PdeOf(p)) == m.edge * 4096 + 0x1F
    requires Walk(m, d, p).None? && WalkKept(m, m1, d, p)
    requires forall i :: 0 <= i < WORDS && i != PdeOf(p) ==> EntryKept(m, m1, d, i)
    requires MapsPage(m1, r, d, p, fl)
    ensures MapsPage(m, r, d, p, fl)
  {
    PageParts(p);
    GrownJoin(m, m1, r, d, p, p, p + 1, fl);
    forall i | 0 <= i < WORDS && i != PdeOf(p) ensures EntryKept(m, r, d, i) {
      assert EntryKept(m, m1, d, i) && EntryKept(m1, r, d, i);
    }
  }
}
