/**
 The two ways in which a running process gets more memory (src/core/process.c): the break and the stack.
 */
module ProcessMemory {
  import opened Options
  import opened PageWords
  import opened PageTables
  import opened AddressSpace
  import opened FrameCount
  import opened Machine
  import opened Process

  /** The pages lo..hi of d have become mapped, possibly only up to `page`; what else was there is untouched. */
  ghost predicate Reached(m: Mem, r: Mem, d: int, lo: int, hi: int, page: int)
    requires UserRange(lo, hi)
  {
    && Grown(m, r, d, lo, page, 7) && IsDir(r, d) && FrameOk(m, d) && FrameOk(r, d)
    && (forall p :: UserPage(p) && lo <= p < page ==> Backed(r, d, p))
    && Missing(r, d, lo, hi) + r.edge == Missing(m, d, lo, hi) + m.edge
  }

  lemma ReachedStep(m: Mem, a: Mem, b: Mem, d: int, lo: int, hi: int, page: int, next: int)
    requires UserRange(lo, hi) && Inv(m) && IsDir(m, d) && lo <= page < hi && next == page + 1
    requires Reached(m, a, d, lo, hi, page) && MapsPage(a, b, d, page, 7) && IsDir(b, d)
    ensures Reached(m, b, d, lo, hi, next)
  {
    GrownJoin(m, a, b, d, lo, page, next, 7);
    MapsPageCount(a, b, d, page, lo, hi, 7);
    forall p | UserPage(p) && lo <= p < next ensures Backed(b, d, p) {
      if p < page { assert Backed(a, d, p) && WalkKept(a, b, d, p); }
    }
  }

  lemma GrownWider(m: Mem, r: Mem, d: int, lo: int, page: int, hi: int)
    requires Grown(m, r, d, lo, page, 7) && page <= hi && IsDir(m, d)
    ensures Grown(m, r, d, lo, hi, 7)
  {
    forall e, p | IsDir(m, e) && UserPage(p) && !(e == d && lo <= p < hi) ensures WalkKept(m, r, e, p) {
      assert !(e == d && lo <= p < page);
    }
    forall p | UserPage(p) && lo <= p < hi ensures Continued(m, r, d, p, 7) {
      if p >= page { assert WalkKept(m, r, d, p); }
    }
  }

  lemma StoppedAt(m: Mem, a: Mem, b: Mem, d: int, lo: int, page: int, hi: int)
    requires Inv(m) && IsDir(m, d) && UserRange(lo, hi) && lo <= page <= hi && Reached(m, a, d, lo, hi, page)
    requires b == a || Grown(a, b, d, page, page, 7)
    ensures Grown(m, b, d, lo, hi, 7)
  {
    if b != a { GrownJoin(m, a, b, d, lo, page, page, 7); }
    GrownWider(m, b, d, lo, page, hi);
  }

  /** Page hi is the first one that a break at `brk` does not ask for, or the kernel's first. */
  predicate BreakAt(brk: int, hi: int) {
    if brk <= KERN_OFF then (hi - 1) * PAGE < brk <= hi * PAGE else hi == KERN_PDE * WORDS
  }

  /** Maps the pages from `first` to the one that holds the address below brk. */
  method MapUpTo(mem: Memory, d: int, first: int, brk: int, ghost hi: int) returns (ok: bool, page: int)
    requires Inv(mem.Value()) && IsDir(mem.Value(), d) && FrameOk(mem.Value(), d)
    requires UserRange(first, hi) && BreakAt(brk, hi)
    modifies mem`phys, mem`edge, mem`owner
    ensures Inv(mem.Value()) && IsDir(mem.Value(), d) && FrameOk(mem.Value(), d) && Later(old(mem.Value()), mem.Value())
    ensures ok <==> brk <= KERN_OFF && old(mem.edge + Missing(mem.Value(), d, first, hi)) <= |mem.phys|
    ensures ok ==> page == hi && Reached(old(mem.Value()), mem.Value(), d, first, hi, hi)
    ensures !ok ==> Grown(old(mem.Value()), mem.Value(), d, first, hi, 7)
    ensures !ok ==> mem.edge == |mem.phys| ||
                    (brk > KERN_OFF && Reached(old(mem.Value()), mem.Value(), d, first, hi, hi))
  {
    ghost var m := mem.Value();
    GrownRefl(m, d, first, 7);
    page := first;
    while page * PAGE < brk
      invariant first <= page <= hi && Inv(mem.Value())
      invariant Reached(m, mem.Value(), d, first, hi, page)
    {
      ghost var a := mem.Value();
      if page < hi { CostCounts(a, d, page, first, hi); }
      assert page * PAGE / PAGE == page;
      var addr := mem.PagedirGetOrNew(d, page * PAGE, PTE_MASK);
      WritableFlags();
      if addr == 0 {
        StoppedAt(m, a, mem.Value(), d, first, page, hi);
        return false, page;
      }
      ReachedStep(m, a, mem.Value(), d, first, hi, page, page + 1);
      page := page + 1;
    }
    NothingMissing(mem.Value(), d, first, hi);
    ok := true;
  }

  /** The pages page..top now hold zeroes, and nothing else changed. */
  ghost predicate Cleared(m: Mem, r: Mem, d: int, top: int, page: int) {
    page <= top && Stored(m, r, d, page * PAGE, Zeros((top - page) * PAGE))
  }

  /** And no frame was wasted on them. */
  ghost predicate Zeroed(m: Mem, r: Mem, d: int, lo: int, top: int, page: int)
    requires UserRange(lo, top)
  {
    && Inv(r) && IsDir(r, d) && FrameOk(m, d) && FrameOk(r, d) && Cleared(m, r, d, top, page)
    && Missing(r, d, lo, top) + r.edge == Missing(m, d, lo, top) + m.edge
  }

  lemma ZeroedStep(m: Mem, a: Mem, b: Mem, d: int, lo: int, top: int, page: int, next: int, f: int)
    requires UserRange(lo, top) && Inv(m) && IsDir(m, d) && lo <= next < top && next == page - 1
    requires Zeroed(m, a, d, lo, top, page) && MapsPage(a, b, d, next, 7)
    requires Walk(b, d, next) == Some(f) && FrameOk(b, f)
    ensures Zeroed(m, Poke(b, f, ZeroFrame()), d, lo, top, next)
  {
    var r := Poke(b, f, ZeroFrame());
    assert ZeroFrame() == Splice(b.phys[f], 0, Zeros(PAGE));
    StoredPage(a, b, d, next, f, 0, next * PAGE, Zeros(PAGE));
    StepCount(a, b, d, lo, top, next, f, ZeroFrame());
    StoredBelow(m, a, r, d, page, Zeros((top - page) * PAGE), next * PAGE, Zeros(PAGE));
    assert Zeros(PAGE) + Zeros((top - page) * PAGE) == Zeros((top - next) * PAGE);
    StoredSame(m, r, d, next * PAGE, Zeros(PAGE) + Zeros((top - page) * PAGE), next * PAGE, Zeros((top - next) * PAGE));
    assert SameRole(m, r, d);
  }

  /** Maps and clears pages from `top` down to `lo`; `page` tells how far it got. */
  method ClearDown(mem: Memory, d: int, lo: int, top: int) returns (ok: bool, page: int)
    requires Inv(mem.Value()) && IsDir(mem.Value(), d) && FrameOk(mem.Value(), d) && UserRange(lo, top)
    modifies mem`phys, mem`edge, mem`owner
    ensures Inv(mem.Value()) && IsDir(mem.Value(), d) && FrameOk(mem.Value(), d)
    ensures ok <==> old(mem.edge + Missing(mem.Value(), d, lo, top)) <= |mem.phys|
    ensures lo <= page <= top && (ok <==> page == lo) && (!ok ==> mem.edge == |mem.phys|)
    ensures Cleared(old(mem.Value()), mem.Value(), d, top, page)
  {
    ghost var m := mem.Value();
    StoredNothing(m, d, top * PAGE);
    page := top;
    while page > lo
      invariant lo <= page <= top
      invariant Zeroed(m, mem.Value(), d, lo, top, page)
    {
      var next := page - 1;
      ok := ClearPage(mem, d, page, next, m, lo, top);
      if !ok { return; }
      page := next;
    }
    ZeroedEnd(m, mem.Value(), d, lo, top);
    ok := true;
  }

  /** One page of it. */
  method ClearPage(mem: Memory, d: int, page: int, next: int, ghost m: Mem, ghost lo: int, ghost top: int)
    returns (ok: bool)
    requires UserRange(lo, top) && Inv(m) && IsDir(m, d) && lo <= next < top && next == page - 1
    requires Zeroed(m, mem.Value(), d, lo, top, page)
    modifies mem`phys, mem`edge, mem`owner
    ensures ok ==> Zeroed(m, mem.Value(), d, lo, top, next)
    ensures !ok ==> Inv(mem.Value()) && IsDir(mem.Value(), d) && FrameOk(mem.Value(), d)
    ensures !ok ==> FrameOk(m, d) && m.edge + Missing(m, d, lo, top) > |m.phys|
    ensures !ok ==> Cleared(m, mem.Value(), d, top, page) && mem.edge == |mem.phys|
  {
    ghost var a := mem.Value();
    CostCounts(a, d, next, lo, top);
    assert next * PAGE / PAGE == next;
    var addr := mem.PagedirGetOrNew(d, next * PAGE, PTE_MASK);
    WritableFlags();
    ghost var b := mem.Value();
    if addr == 0 {
      StoredThenGrown(m, a, b, d, page * PAGE, Zeros((top - page) * PAGE), next);
      return false;
    }
    WalkOwner(b, d, next);
    mem.phys := mem.phys[addr / PAGE := ZeroFrame()];
    ZeroedStep(m, a, b, d, lo, top, page, next, addr / PAGE);
    ok := true;
  }

  lemma ZeroedEnd(m: Mem, r: Mem, d: int, lo: int, top: int)
    requires UserRange(lo, top) && Zeroed(m, r, d, lo, top, lo)
    ensures Missing(m, d, lo, top) + m.edge <= |m.phys|
  {
    assert lo * PAGE / PAGE == lo && PagesUp(top * PAGE) == top;
    NothingMissing(r, d, lo, top);
  }

  /** Page behind the last one that a break at `brk` asks for, as far as the kernel's addresses. */
  function BreakPage(brk: int): int { if brk <= KERN_OFF then PagesUp(brk) else KERN_PDE * WORDS }

  lemma WholePages(page: int)
    ensures page * PAGE % PAGE == 0
  {}

  lemma BreakPages(heapEnd: int, brk: int)
    requires heapEnd % PAGE == 0 && USER_BASE <= heapEnd <= KERN_OFF && heapEnd < brk
    ensures UserRange(heapEnd / PAGE, BreakPage(brk)) && BreakAt(brk, BreakPage(brk))
  {}

  lemma ReachedWritable(m: Mem, r: Mem, d: int, from: int, hi: int)
    requires UserRange(from / PAGE, hi) && from % PAGE == 0 && Reached(m, r, d, from / PAGE, hi, hi)
    ensures forall p :: from <= p * 4096 < hi * PAGE ==> Writable(m, r, d, p)
  {
    forall p | from <= p * 4096 < hi * PAGE ensures Writable(m, r, d, p) {
      assert Backed(r, d, p) && Continued(m, r, d, p, 7);
    }
  }

  lemma ZeroedWritable(m: Mem, r: Mem, d: int, from: int, to: int)
    requires USER_BASE <= from <= to <= KERN_OFF && from % PAGE == to % PAGE == 0
    requires Stored(m, r, d, from, Zeros(to - from))
    ensures forall x :: from <= x < to ==> UserAddress(x) && Reads(r, d, x, 0)
    ensures forall p :: from <= p * 4096 < to ==> Writable(m, r, d, p)
  {
    forall x | from <= x < to ensures UserAddress(x) && Reads(r, d, x, 0) {
      assert ReadsAt(r, d, from, x - from, Zeros(to - from));
    }
    assert PagesUp(to) == to / PAGE;
    forall p | from <= p * 4096 < to ensures Writable(m, r, d, p) {
      assert Backed(r, d, p) && Continued(m, r, d, p, 7);
    }
  }

  class Proc {
    const mem: Memory
    const pagedir: int
    var userstack: int
    var heapEnd: int

    ghost predicate Valid()
      reads this, mem
    {
      && Inv(mem.Value()) && IsDir(mem.Value(), pagedir) && FrameOk(mem.Value(), pagedir)
      && heapEnd % PAGE == 0 && USER_BASE <= heapEnd <= KERN_OFF
      && userstack % PAGE == 0 && USER_BASE <= userstack <= KERN_OFF
    }

    constructor (memory: Memory, dir: int, stack: int, heap: int)
      requires Inv(memory.Value()) && IsDir(memory.Value(), dir)
      requires heap % PAGE == 0 && USER_BASE <= heap <= KERN_OFF && stack % PAGE == 0 && USER_BASE <= stack <= KERN_OFF
      ensures Valid() && mem == memory && pagedir == dir && userstack == stack && heapEnd == heap
    {
      OwnedFrame(memory.Value(), dir);
      mem, pagedir, userstack, heapEnd := memory, dir, stack, heap;
    }

    /**
     sys_brk. A break above the heap maps exactly the pages in between, whose old contents it does not clear, and
     succeeds exactly when it stays below the kernel and the frames suffice; 0 asks where the break is; a break
     inside the heap changes nothing.
     */
    method Brk(brk: int) returns (r: int)
      requires Valid() && 0 <= brk < TWO32
      modifies `heapEnd, mem`phys, mem`edge, mem`owner
      ensures Valid() && Later(old(mem.Value()), mem.Value())
      ensures brk <= old(heapEnd) ==> r == heapEnd == old(heapEnd) && mem.Value() == old(mem.Value())
      ensures brk > old(heapEnd) ==> UserRange(old(heapEnd) / PAGE, BreakPage(brk))
      ensures brk > old(heapEnd) ==>
                (r != 0 <==>
                   brk <= KERN_OFF &&
                   old(mem.edge + Missing(mem.Value(), pagedir, heapEnd / PAGE, BreakPage(brk))) <= |mem.phys|)
      ensures brk > old(heapEnd) && r != 0 ==>
                && r == heapEnd == BreakPage(brk) * PAGE && brk <= r < brk + 4096 && r % 4096 == 0
                && Reached(old(mem.Value()), mem.Value(), pagedir, old(heapEnd) / PAGE, BreakPage(brk), BreakPage(brk))
      ensures brk > old(heapEnd) && r != 0 ==>
                forall p :: old(heapEnd) <= p * 4096 < r ==> Writable(old(mem.Value()), mem.Value(), pagedir, p)
      ensures r == 0 ==> heapEnd == old(heapEnd)
      ensures r == 0 ==>
                || mem.edge == |mem.phys|
                || (brk > 0xC000_0000 &&
                    forall p :: heapEnd <= p * 4096 < 0xC000_0000 ==>
                      Writable(old(mem.Value()), mem.Value(), pagedir, p))
      ensures r == 0 ==> Grown(old(mem.Value()), mem.Value(), pagedir, heapEnd / PAGE, BreakPage(brk), 7)
    {
      ghost var m := mem.Value();
      assert forall f :: f in m.owner ==> SameRole(m, m, f);
      if brk <= heapEnd { return heapEnd; }
      BreakPages(heapEnd, brk);
      var ok, page := MapUpTo(mem, pagedir, heapEnd / PAGE, brk, BreakPage(brk));
      if !ok {
        if mem.edge < |mem.phys| { ReachedWritable(m, mem.Value(), pagedir, heapEnd, BreakPage(brk)); }
        return 0;
      }
      WholePages(page);
      ReachedWritable(m, mem.Value(), pagedir, heapEnd, page);
      heapEnd := page * PAGE;
      r := heapEnd;
    }

    /**
     process_grow_stack. Maps and clears the pages from the one with the fault up to the stack; -1 exactly when the
     frames do not suffice.
     */
    method GrowStack(fault: int) returns (r: int)
      requires Valid() && USER_BASE <= fault
      modifies `userstack, mem`phys, mem`edge, mem`owner
      ensures Valid()
      ensures fault >= old(userstack) ==> r == 0 && userstack == old(userstack) && mem.Value() == old(mem.Value())
      ensures fault < old(userstack) ==> UserRange(fault / PAGE, old(userstack) / PAGE)
      ensures fault < old(userstack) ==>
                (r == 0 <==>
                   old(mem.edge + Missing(mem.Value(), pagedir, fault / PAGE, userstack / PAGE)) <= |mem.phys|)
      ensures fault < old(userstack) && r == 0 ==> userstack % 4096 == 0 && userstack <= fault < userstack + 4096
      ensures r == 0 || (r == -1 && fault < userstack <= old(userstack) && mem.edge == |mem.phys|)
      ensures Stored(old(mem.Value()), mem.Value(), pagedir, userstack, Zeros(old(userstack) - userstack))
      ensures forall x :: userstack <= x < old(userstack) ==> UserAddress(x) && Reads(mem.Value(), pagedir, x, 0)
      ensures forall p :: userstack <= p * 4096 < old(userstack) ==>
                Writable(old(mem.Value()), mem.Value(), pagedir, p)
    {
      ghost var m := mem.Value();
      var page := userstack / PAGE;
      StoredNothing(m, pagedir, userstack);
      if fault >= userstack { return 0; }
      var ok, reached := ClearDown(mem, pagedir, fault / PAGE, page);
      WholePages(reached);
      ZeroedWritable(m, mem.Value(), pagedir, reached * PAGE, userstack);
      userstack := reached * PAGE;
      r := if ok then 0 else -1;
    }
  }
}
