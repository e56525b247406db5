/**
 How many frames a range of pages still needs: one for each page that is not mapped, and one for
 each page table that does not exist yet. Mapping a page uses exactly what it takes off this count.
 */
module FrameCount {
  import opened Options
  import opened PageWords
  import opened PageTables
  import opened AddressSpace
  import opened FiniteSets

  predicate UserRange(lo: int, hi: int) { WORDS <= lo <= hi <= KERN_PDE * WORDS }

  function MissingPages(m: Mem, d: int, lo: int, hi: int): (n: nat)
    requires FrameOk(m, d) && UserRange(lo, hi)
    decreases hi - lo
  {
    if lo == hi then 0
    else MissingPages(m, d, lo, hi - 1) + if Walk(m, d, hi - 1).None? then 1 else 0
  }

  function MissingTables(m: Mem, d: int, i: int, k: int): (n: nat)
    requires FrameOk(m, d) && 0 <= i <= k <= WORDS
    decreases k - i
  {
    if i == k then 0
    else MissingTables(m, d, i, k - 1) + if Word(m.phys[d], k - 1) == 0 then 1 else 0
  }

  /** One past the last directory entry that pages below hi use. */
  function LastPde(lo: int, hi: int): int { if lo == hi then PdeOf(lo) else PdeOf(hi - 1) + 1 }

  function Missing(m: Mem, d: int, lo: int, hi: int): (n: nat)
    requires FrameOk(m, d) && UserRange(lo, hi)
  {
    MissingPages(m, d, lo, hi) + MissingTables(m, d, PdeOf(lo), LastPde(lo, hi))
  }

  /** Frames one page needs. */
  function Cost(m: Mem, d: int, p: int): (n: nat)
    requires FrameOk(m, d) && UserPage(p)
  {
    PageParts(p);
    (if Walk(m, d, p).None? then 1 else 0) + if Word(m.phys[d], PdeOf(p)) == 0 then 1 else 0
  }

  predicate EntryKept(m: Mem, r: Mem, d: int, i: int)
    requires 0 <= i < WORDS
  {
    FrameOk(m, d) && FrameOk(r, d) && Word(r.phys[d], i) == Word(m.phys[d], i)
  }

  /** Page p of d is mapped in r, with these flags if it was not before, at no more cost than it has to have; a table
      that was missing is in the first frame taken; and all else is as in m. */
  ghost predicate MapsPage(m: Mem, r: Mem, d: int, p: int, fl: int)
    requires UserPage(p)
  {
    && Grown(m, r, d, p, p + 1, fl) && Backed(r, d, p) && FrameOk(m, d)
    && r.edge == m.edge + Cost(m, d, p)
    && Word(r.phys[d], PdeOf(p)) == (if Word(m.phys[d], PdeOf(p)) == 0 then m.edge * 4096 + 0x1F
                                     else Word(m.phys[d], PdeOf(p)))
    && (forall i :: 0 <= i < WORDS && i != PdeOf(p) ==> EntryKept(m, r, d, i))
    && (Walk(m, d, p).Some? ==> r == m)
    && (Walk(m, d, p).None? ==> Walk(r, d, p) == Some(r.edge - 1))
  }

  // ---------- counting ----------

  lemma {:induction false} PagesCounted(m: Mem, r: Mem, d: int, p: int, lo: int, hi: int, fl: int)
    requires FrameOk(m, d) && FrameOk(r, d) && UserRange(lo, hi) && UserPage(p) && IsDir(m, d)
    requires WalksKept(m, r, d, p, p + 1, fl) && Backed(r, d, p)
    ensures MissingPages(r, d, lo, hi) + (if lo <= p < hi && Walk(m, d, p).None? then 1 else 0)
         == MissingPages(m, d, lo, hi)
    decreases hi - lo
  {
    if lo < hi {
      PagesCounted(m, r, d, p, lo, hi - 1, fl);
      if hi - 1 == p { assert Continued(m, r, d, p, fl); } else { assert WalkKept(m, r, d, hi - 1); }
    }
  }

  lemma {:induction false} TablesCounted(m: Mem, r: Mem, d: int, i: int, lo: int, hi: int)
    requires FrameOk(m, d) && FrameOk(r, d) && 0 <= lo <= hi <= WORDS && 0 <= i < WORDS
    requires Word(r.phys[d], i) != 0
    requires forall k :: 0 <= k < WORDS && k != i ==> EntryKept(m, r, d, k)
    ensures MissingTables(r, d, lo, hi) + (if lo <= i < hi && Word(m.phys[d], i) == 0 then 1 else 0)
         == MissingTables(m, d, lo, hi)
    decreases hi - lo
  {
    if lo < hi {
      TablesCounted(m, r, d, i, lo, hi - 1);
      if hi - 1 != i { assert EntryKept(m, r, d, hi - 1); }
    }
  }

  lemma PdeInRange(lo: int, hi: int, p: int)
    requires UserRange(lo, hi)
    ensures 0 <= PdeOf(lo) <= LastPde(lo, hi) <= KERN_PDE
    ensures lo <= p < hi ==> PdeOf(lo) <= PdeOf(p) < LastPde(lo, hi)
  {}

  /** What mapping one page of a range takes from the allocator comes off the range's count. */
  lemma MapsPageCount(m: Mem, r: Mem, d: int, p: int, lo: int, hi: int, fl: int)
    requires Inv(m) && IsDir(m, d) && UserRange(lo, hi) && lo <= p < hi && MapsPage(m, r, d, p, fl)
    ensures FrameOk(m, d) && FrameOk(r, d) && Missing(r, d, lo, hi) + r.edge == Missing(m, d, lo, hi) + m.edge
  {
    PageParts(p);
    PdeInRange(lo, hi, p);
    PagesCounted(m, r, d, p, lo, hi, fl);
    TablesCounted(m, r, d, PdeOf(p), PdeOf(lo), LastPde(lo, hi));
  }

  lemma {:induction false} PageCounts(m: Mem, d: int, p: int, lo: int, hi: int)
    requires FrameOk(m, d) && UserRange(lo, hi) && lo <= p < hi
    ensures Walk(m, d, p).None? ==> MissingPages(m, d, lo, hi) > 0
    decreases hi - lo
  {
    if p < hi - 1 { PageCounts(m, d, p, lo, hi - 1); }
  }

  lemma {:induction false} TableCounts(m: Mem, d: int, i: int, lo: int, hi: int)
    requires FrameOk(m, d) && 0 <= lo <= i < hi <= WORDS
    ensures Word(m.phys[d], i) == 0 ==> MissingTables(m, d, lo, hi) > 0
    decreases hi - lo
  {
    if i < hi - 1 { TableCounts(m, d, i, lo, hi - 1); }
  }

  lemma CostCounts(m: Mem, d: int, p: int, lo: int, hi: int)
    requires FrameOk(m, d) && UserRange(lo, hi) && lo <= p < hi
    ensures Cost(m, d, p) <= Missing(m, d, lo, hi)
  {
    PageParts(p);
    PdeInRange(lo, hi, p);
    PageCounts(m, d, p, lo, hi);
    TableCounts(m, d, PdeOf(p), PdeOf(lo), LastPde(lo, hi));
  }

  lemma {:induction false} NoPageMissing(m: Mem, d: int, lo: int, hi: int)
    requires FrameOk(m, d) && UserRange(lo, hi)
    requires forall p :: UserPage(p) && lo <= p < hi ==> Backed(m, d, p)
    ensures MissingPages(m, d, lo, hi) == 0
    decreases hi - lo
  {
    if lo < hi {
      NoPageMissing(m, d, lo, hi - 1);
      assert Backed(m, d, hi - 1);
    }
  }

  lemma {:induction false} NoTableMissing(m: Mem, d: int, lo: int, hi: int, k: int)
    requires FrameOk(m, d) && UserRange(lo, hi) && lo < hi
    requires PdeOf(lo) <= k <= LastPde(lo, hi) <= WORDS && 0 <= PdeOf(lo)
    requires forall p :: UserPage(p) && lo <= p < hi ==> Backed(m, d, p)
    ensures MissingTables(m, d, PdeOf(lo), k) == 0
    decreases k
  {
    if k > PdeOf(lo) {
      NoTableMissing(m, d, lo, hi, k - 1);
      var p := if k - 1 == PdeOf(lo) then lo else (k - 1) * WORDS;
      assert lo <= p < hi && PdeOf(p) == k - 1;
      assert Backed(m, d, p);
    }
  }

  /** A range that is mapped throughout needs nothing more. */
  lemma NothingMissing(m: Mem, d: int, lo: int, hi: int)
    requires FrameOk(m, d) && UserRange(lo, hi)
    requires forall p :: UserPage(p) && lo <= p < hi ==> Backed(m, d, p)
    ensures Missing(m, d, lo, hi) == 0
  {
    PdeInRange(lo, hi, lo);
    NoPageMissing(m, d, lo, hi);
    if lo < hi { NoTableMissing(m, d, lo, hi, LastPde(lo, hi)); }
  }

  lemma {:induction false} MissingPagesSame(m: Mem, r: Mem, d: int, lo: int, hi: int)
    requires FrameOk(m, d) && FrameOk(r, d) && UserRange(lo, hi)
    requires forall p :: UserPage(p) ==> WalkKept(m, r, d, p)
    ensures MissingPages(r, d, lo, hi) == MissingPages(m, d, lo, hi)
    decreases hi - lo
  {
    if lo < hi {
      MissingPagesSame(m, r, d, lo, hi - 1);
      assert WalkKept(m, r, d, hi - 1);
    }
  }

  lemma {:induction false} MissingTablesSame(m: Mem, r: Mem, d: int, i: int, k: int)
    requires FrameOk(m, d) && FrameOk(r, d) && 0 <= i <= k <= WORDS && r.phys[d] == m.phys[d]
    ensures MissingTables(r, d, i, k) == MissingTables(m, d, i, k)
    decreases k - i
  {
    if i < k { MissingTablesSame(m, r, d, i, k - 1); }
  }

  /** Writing into a data page does not change the count. */
  lemma PokeCount(m: Mem, d: int, f: int, frame: Frame, lo: int, hi: int)
    requires Inv(m) && IsDir(m, d) && f in m.owner && m.owner[f].Data? && FrameOk(m, f) && IsFrame(frame)
    requires UserRange(lo, hi)
    ensures FrameOk(m, d) && FrameOk(Poke(m, f, frame), d)
    ensures Missing(Poke(m, f, frame), d, lo, hi) == Missing(m, d, lo, hi)
  {
    var r := Poke(m, f, frame);
    OwnedFrame(m, d);
    PokeInv(m, f, frame);
    forall p | UserPage(p) ensures WalkKept(m, r, d, p) { PokeWalk(m, f, frame, d, p); }
    PdeInRange(lo, hi, lo);
    assert FrameOk(r, d);
    MissingPagesSame(m, r, d, lo, hi);
    MissingTablesSame(m, r, d, PdeOf(lo), LastPde(lo, hi));
  }

  // ---------- the count as sets ----------

  /** The pages of a range that are not mapped, and the directory entries of it that have no table. */
  function PageSet(m: Mem, d: int, lo: int, hi: int): (s: set<int>)
    requires FrameOk(m, d) && UserRange(lo, hi)
  {
    set p | lo <= p < hi && Unmapped(m, d, p)
  }

  predicate Unmapped(m: Mem, d: int, p: int)
    requires FrameOk(m, d)
  {
    UserPage(p) && Walk(m, d, p).None?
  }

  function TableSet(m: Mem, d: int, i: int, k: int): (s: set<int>)
    requires FrameOk(m, d) && 0 <= i <= k <= WORDS
  {
    set j | i <= j < k && NoTable(m, d, j)
  }

  predicate NoTable(m: Mem, d: int, j: int)
    requires FrameOk(m, d)
  {
    0 <= j < WORDS && Word(m.phys[d], j) == 0
  }

  lemma {:induction false} PageSetSize(m: Mem, d: int, lo: int, hi: int)
    requires FrameOk(m, d) && UserRange(lo, hi)
    ensures |PageSet(m, d, lo, hi)| == MissingPages(m, d, lo, hi)
    decreases hi - lo
  {
    if lo < hi {
      PageSetSize(m, d, lo, hi - 1);
      PageSetNext(m, d, lo, hi, hi - 1);
    }
  }

  lemma PageSetNext(m: Mem, d: int, lo: int, hi: int, p: int)
    requires FrameOk(m, d) && UserRange(lo, hi) && lo < hi && p == hi - 1
    ensures UserPage(p) && |PageSet(m, d, lo, hi)| == |PageSet(m, d, lo, p)| + if Walk(m, d, p).None? then 1 else 0
  {
    if Unmapped(m, d, p) {
      assert PageSet(m, d, lo, hi) == PageSet(m, d, lo, p) + {p};
      OneAdded(PageSet(m, d, lo, p), p);
    } else {
      assert PageSet(m, d, lo, hi) == PageSet(m, d, lo, p);
    }
  }

  lemma {:induction false} TableSetSize(m: Mem, d: int, i: int, k: int)
    requires FrameOk(m, d) && 0 <= i <= k <= WORDS
    ensures |TableSet(m, d, i, k)| == MissingTables(m, d, i, k)
    decreases k - i
  {
    if i < k {
      TableSetSize(m, d, i, k - 1);
      TableSetNext(m, d, i, k, k - 1);
    }
  }

  lemma TableSetNext(m: Mem, d: int, i: int, k: int, j: int)
    requires FrameOk(m, d) && 0 <= i < k <= WORDS && j == k - 1
    ensures |TableSet(m, d, i, k)| == |TableSet(m, d, i, j)| + if Word(m.phys[d], j) == 0 then 1 else 0
  {
    var s := TableSet(m, d, i, j);
    OneAdded(s, j);
    assert TableSet(m, d, i, k) == if NoTable(m, d, j) then s + {j} else s;
  }

  /** Only directory entries of this range may have got a table. */
  ghost predicate EntriesKept(m: Mem, r: Mem, d: int, lo: int, hi: int) {
    forall i :: 0 <= i < WORDS && !(PdeOf(lo) <= i < LastPde(lo, hi)) ==> EntryKept(m, r, d, i)
  }

  /** Mapping a page of the range and writing into it. */
  lemma EntriesStep(m: Mem, a: Mem, b: Mem, d: int, p: int, f: int, frame: Frame, lo: int, hi: int, fl: int)
    requires EntriesKept(m, a, d, lo, hi) && UserRange(lo, hi) && lo <= p < hi && MapsPage(a, b, d, p, fl)
    requires FrameOk(b, f) && f != d && IsFrame(frame)
    ensures EntriesKept(m, Poke(b, f, frame), d, lo, hi)
  {
    var r := Poke(b, f, frame);
    PageParts(p);
    PdeInRange(lo, hi, p);
    forall i | 0 <= i < WORDS && !(PdeOf(lo) <= i < LastPde(lo, hi)) ensures EntryKept(m, r, d, i) {
      assert EntryKept(m, a, d, i) && EntryKept(a, b, d, i);
      assert FrameOk(r, d);
    }
  }
}
