/**
 Physical memory with its bump allocator (src/mem/pmem.c) and the page directories built in it
 (src/mem/paging.c). Frame f is the page at physical address f * PAGE; a directory is named by its frame.
 */
module Machine {
  import opened Options
  import opened PageWords
  import opened PageTables
  import opened AddressSpace
  import opened FrameCount
  import opened Paging

  /** Entry e is where the hardware looks for address vaddr: in the table that its upper ten bits choose in the
      directory, at the place that the next ten bits choose there. */
  predicate InTables(m: Mem, d: int, vaddr: int, e: int)
    requires FrameOk(m, d) && 0 <= vaddr < TWO32
  {
    var t := Word(m.phys[d], vaddr / 0x40_0000) / 0x1000;
    FrameOk(m, t) && Word(m.phys[t], vaddr / 0x1000 % 0x400) == e
  }

  class Memory {
    var phys: seq<Frame>
    var edge: int                 // theEdgeOfAllocatedMemory; theEndOfUpperMemory is |phys|
    const kdir: Frame             // thePageDirectory
    ghost var owner: map<int, Role>

    ghost function Value(): Mem
      reads this
    {
      Mem(phys, edge, kdir, owner)
    }

    /** Right after boot: nothing is allocated beyond the kernel image and its modules. */
    constructor (frames: seq<Frame>, start: int, kernelDir: Frame)
      requires 0 < start <= |frames| <= 0x10_0000 && IsFrame(kernelDir)
      requires forall f :: 0 <= f < |frames| ==> IsFrame(frames[f])
      ensures Value() == Mem(frames, start, kernelDir, map[]) && Inv(Value())
    {
      phys, edge, kdir, owner := frames, start, kernelDir, map[];
      new;
      assert forall f :: 0 <= f < |frames| ==> FrameOk(Value(), f);
    }

    /** `count` consecutive frames never handed out before, or 0. */
    method PmemAlloc(count: int) returns (addr: int)
      requires 0 <= count
      modifies `edge
      ensures old(edge) + count <= |phys| ==> addr == old(edge) * PAGE && edge == old(edge) + count
      ensures old(edge) + count > |phys| ==> addr == 0 && edge == old(edge)
    {
      var newEdge := edge + count;
      if newEdge > |phys| { return 0; }
      addr := PAGE * edge;
      edge := newEdge;
    }

    /** Only the most recent allocation can be given back. */
    method PmemFree(start: int, count: int) returns (ok: bool)
      requires Inv(Value()) && 0 < start && 0 <= count
      requires forall f :: f in owner ==> f < start || start + count <= f
      modifies `edge
      ensures ok <==> start + count == old(edge)
      ensures edge == if ok then start else old(edge)
      ensures Inv(Value())
    {
      ok := start + count == edge;
      if ok {
        ghost var m := Value();
        edge := start;
        ghost var r := Value();
        forall f | 0 <= f < |r.phys| ensures FrameOk(r, f) { assert FrameOk(m, f); }
        forall f | f in r.owner ensures Allocated(r, f) { assert Allocated(m, f); }
        forall f | f in m.owner ensures SameRole(m, r, f) {}
        forall f | f in r.owner ensures FrameOk(r, f) && RoleOk(r, f) { Shrunk(m, r, f); }
      }
    }

    /** A directory that maps the kernel and nothing else, in a fresh frame; 0 when memory is full, and then frame 0 is
        overwritten all the same. */
    method PagedirAlloc() returns (d: int)
      requires Inv(Value())
      modifies this
      ensures Inv(Value()) && Later(old(Value()), Value())
      ensures d == 0 <==> old(edge) == |phys|
      ensures d == 0 ==> Value() == Poke(old(Value()), 0, DirectoryFrame(kdir))
      ensures d != 0 ==> d == old(edge) && edge == d + 1 && IsDir(Value(), d) && FrameOk(Value(), d)
      ensures d != 0 ==> forall p :: UserPage(p) ==> Walk(Value(), d, p).None?
      ensures forall e, p :: old(IsDir(Value(), e)) && UserPage(p) ==> WalkKept(old(Value()), Value(), e, p)
      ensures 0 <= d < |phys| && IsFrame(phys[d])
      ensures forall k :: 0 <= k < 1024 ==> Word(phys[d], k) == if k == 0 || 768 <= k then Word(kdir, k) else 0
      ensures forall f :: f in old(owner) ==> DataKept(old(Value()), Value(), f)
    {
      ghost var m := Value();
      assert FrameOk(m, 0);
      var addr := PmemAlloc(1);
      d := addr / PAGE;
      phys := phys[d := DirectoryFrame(kdir)];
      if d != 0 { owner := owner[d := Dir]; }
      ghost var r := Value();
      EdgeIsFree(m);
      if d == 0 {
        PokeInv(m, 0, DirectoryFrame(kdir));
        forall e, p | IsDir(m, e) && UserPage(p) ensures WalkKept(m, r, e, p) {
          PokeWalk(m, 0, DirectoryFrame(kdir), e, p);
        }
      } else {
        NewDirectoryInv(m);
        assert FrameOk(r, d);
        forall e, p | IsDir(m, e) && UserPage(p) ensures WalkKept(m, r, e, p) { NewDirectoryWalk(m, e, p); }
        forall p | UserPage(p) ensures Walk(r, d, p).None? { EmptyDirectory(m, p); }
      }
      forall f | f in m.owner ensures DataKept(m, r, f) { assert Allocated(m, f); }
      forall k | 0 <= k < 1024 ensures Word(phys[d], k) == if k == 0 || 768 <= k then Word(kdir, k) else 0 {
        DirectoryWord(kdir, k);
      }
    }

    /**
     The frame behind a page, mapping a fresh one if there is none. 0 exactly when the address is the kernel's or
     the frames run out; then every translation is as before.
     */
    method PagedirGetOrNew(d: int, vaddr: int, mask: int) returns (addr: int)
      requires Inv(Value()) && IsDir(Value(), d) && USER_BASE <= vaddr < TWO32
      modifies `phys, `edge, `owner
      ensures Inv(Value()) && IsDir(Value(), d) && FrameOk(Value(), d) && FrameOk(old(Value()), d)
      ensures vaddr >= 0xC000_0000 ==> addr == 0 && Value() == old(Value())
      ensures vaddr < KERN_OFF ==> UserPage(vaddr / PAGE)
      ensures vaddr < KERN_OFF ==> (addr != 0 <==> old(edge) + Cost(old(Value()), d, vaddr / PAGE) <= |phys|)
      ensures vaddr < KERN_OFF && addr == 0 ==>
                Grown(old(Value()), Value(), d, vaddr / PAGE, vaddr / PAGE, UserPresentFlags(mask))
      ensures vaddr < KERN_OFF && addr == 0 ==>
                && edge == |phys|
                && var was := Word(old(phys)[d], vaddr / 0x40_0000);
                   Word(phys[d], vaddr / 0x40_0000)
                   == if was == 0 && old(edge) < |phys| then old(edge) * 4096 + 0x1F else was
      ensures vaddr < KERN_OFF && addr != 0 ==>
                && MapsPage(old(Value()), Value(), d, vaddr / PAGE, UserPresentFlags(mask))
                && PteAt(Value(), d, vaddr / PAGE) / 4096 == addr / 4096
      ensures vaddr < KERN_OFF && addr != 0 ==> Walk(Value(), d, vaddr / PAGE) == Some(addr / PAGE)
      ensures vaddr < KERN_OFF && addr != 0 && Walk(old(Value()), d, vaddr / PAGE).None? ==>
                Flagged(PteAt(Value(), d, vaddr / PAGE), mask)
      ensures vaddr < KERN_OFF && addr != 0 ==> InTables(Value(), d, vaddr, PteAt(Value(), d, vaddr / PAGE))
      ensures addr % PAGE == 0
    {
      ghost var m := Value();
      OwnedFrame(m, d);
      if vaddr >= KERN_OFF { return 0; }
      ghost var p := vaddr / PAGE;
      PageParts(p);
      AddressParts(vaddr);
      var table := GetTable(d, vaddr / 0x40_0000, p, UserPresentFlags(mask));
      if table == 0 {
        GrownRefl(m, d, p, UserPresentFlags(mask));
        return 0;
      }
      ghost var m1 := Value();
      addr := GetPage(d, table / PAGE, vaddr / PAGE % WORDS, mask, p);
      if addr != 0 && m1 != m { BothPhases(m, m1, Value(), d, p, UserPresentFlags(mask)); }
    }

    /** The page table for directory entry i, a fresh empty one if there was none. */
    method GetTable(d: int, i: int, ghost p: int, ghost fl: int) returns (addr: int)
      requires Inv(Value()) && IsDir(Value(), d) && FrameOk(Value(), d) && d < edge && UserPage(p) && i == PdeOf(p)
      modifies `phys, `edge, `owner
      ensures Inv(Value()) && FrameOk(Value(), d) && Value() == WithTable(old(Value()), d, p)
      ensures addr == 0 <==> Word(old(phys)[d], i) == 0 && old(edge) == |phys|
      ensures addr == 0 ==> Value() == old(Value())
      ensures addr != 0 ==> TableReady(Value(), d, p) && addr == Word(phys[d], i) / PAGE * PAGE
      ensures addr != 0 && Value() != old(Value()) ==>
                && Grown(old(Value()), Value(), d, p, p, fl) && edge == old(edge) + 1 && Word(old(phys)[d], i) == 0
                && Word(phys[d], i) == old(edge) * 4096 + 0x1F
                && (forall k :: 0 <= k < WORDS && k != i ==> EntryKept(old(Value()), Value(), d, k))
                && Walk(old(Value()), d, p).None? && WalkKept(old(Value()), Value(), d, p)
    {
      PageParts(p);
      ghost var m := Value();
      var pde := Word(phys[d], i);
      if pde != 0 {
        OldTableReady(m, d, p);
        return pde / PAGE * PAGE;
      }
      addr := PmemAlloc(1);
      if addr == 0 { return; }
      PutTable(d, i, addr / PAGE, p);
      NewTableDone(m, d, p, fl);
    }

    /** Clears a frame that was just allocated and enters it as a page table. */
    method PutTable(d: int, i: int, t: int, ghost p: int)
      requires var m := Value().(edge := t);
               && edge == t + 1 && Inv(m) && FrameOk(m, d) && d < t && CanGrow(m) && UserPage(p) && i == PdeOf(p)
               && 0 <= i < WORDS && Word(phys[d], i) == 0
      modifies `phys, `owner
      ensures Value() == WithTable(old(Value().(edge := t)), d, p)
      ensures |phys| == |old(phys)| && FrameOk(Value(), d) && Word(phys[d], i) / PAGE == t
    {
      ghost var f := phys[d];
      phys := phys[t := ZeroFrame()];
      phys := phys[d := PutWord(phys[d], i, Entry(t, PDE_FLAGS))];
      owner := owner[t := Table(d, i)];
      EntryParts(t, PDE_FLAGS);
      PutGet(f, i, Entry(t, PDE_FLAGS), i);
    }

    /** The page in entry j of table t, a fresh one if there was none. */
    method GetPage(ghost d: int, t: int, j: int, mask: int, ghost p: int) returns (addr: int)
      requires UserPage(p) && TableReady(Value(), d, p) && t == Word(phys[d], PdeOf(p)) / PAGE && j == PteOf(p)
      modifies `phys, `edge, `owner
      ensures addr != 0 <==> Walk(old(Value()), d, p).Some? || old(edge) < |phys|
      ensures addr == 0 ==> Value() == old(Value())
      ensures addr != 0 ==>
                && MapsPage(old(Value()), Value(), d, p, UserPresentFlags(mask))
                && Walk(Value(), d, p) == Some(addr / PAGE)
      ensures addr != 0 && Walk(old(Value()), d, p).None? ==> Flagged(PteAt(Value(), d, p), mask)
      ensures addr % PAGE == 0
    {
      PageParts(p);
      ghost var m := Value();
      WalkOwner(m, d, p);
      var pte := Word(phys[t], j);
      if pte == 0 {
        var page := PmemAlloc(1);
        if page == 0 { return 0; }
        pte := PutPage(d, t, j, page / PAGE, mask, p);
      } else {
        OldPageDone(m, d, p, mask);
      }
      addr := pte / PAGE * PAGE;
    }

    /** Enters a frame that was just allocated. */
    method PutPage(ghost d: int, t: int, j: int, page: int, mask: int, ghost p: int) returns (pte: int)
      requires var m := Value().(edge := page);
               && edge == page + 1 && UserPage(p) && TableReady(m, d, p) && Walk(m, d, p).None? && CanGrow(m)
               && t == Word(phys[d], PdeOf(p)) / PAGE && j == PteOf(p)
      modifies `phys, `owner
      ensures MapsPage(old(Value().(edge := page)), Value(), d, p, UserPresentFlags(mask))
      ensures Walk(Value(), d, p) == Some(pte / PAGE) && pte / PAGE == page && Flagged(PteAt(Value(), d, p), mask)
    {
      ghost var m := Value().(edge := page);
      PageParts(p);
      pte := Entry(page, UserPresentFlags(mask));
      phys := phys[t := PutWord(phys[t], j, pte)];
      owner := owner[page := Data(d, PdeOf(p), j)];
      UserPresentFlagsSet(mask);
      EntryParts(page, UserPresentFlags(mask));
      assert Value() == WithPage(m, d, p, mask);
      NewEntry(m, d, p, mask);
      NewPageDone(m, d, p, mask);
    }
  }

  lemma AddressParts(vaddr: int)
    requires USER_BASE <= vaddr < KERN_OFF
    ensures UserPage(vaddr / PAGE) && PdeOf(vaddr / PAGE) == vaddr / 0x40_0000
  {}

  lemma EmptyDirectory(m: Mem, p: int)
    requires Inv(m) && CanGrow(m) && UserPage(p) && Inv(NewDirectory(m))
    ensures FrameOk(NewDirectory(m), m.edge) && Walk(NewDirectory(m), m.edge, p).None?
  {
    PageParts(p);
    DirectoryWord(m.kdir, PdeOf(p));
    assert FrameOk(NewDirectory(m), m.edge);
  }

  lemma Shrunk(m: Mem, r: Mem, f: int)
    requires Inv(m) && f in m.owner && r == m.(edge := r.edge)
    ensures FrameOk(r, f) && RoleOk(r, f)
  {
    OwnedFrame(m, f);
    match m.owner[f]
    case Dir =>
      forall i | 1 <= i < KERN_PDE ensures EntryOk(r, f, i, Table(f, i)) { assert EntryOk(m, f, i, Table(f, i)); }
      forall k | KernelEntry(k) ensures KernelSame(r, f, k) { assert KernelSame(m, f, k); }
    case Table(d, i) =>
      forall j | 0 <= j < WORDS ensures EntryOk(r, f, j, Data(d, i, j)) { assert EntryOk(m, f, j, Data(d, i, j)); }
    case Data(_, _, _) =>
  }
}
