/**
 A process image in its address space (src/core/process.c): loading ELF segments, the break, the stack.
 */
module Process {
  import opened Options
  import opened PageWords
  import opened PageTables
  import opened AddressSpace
  import opened FrameCount
  import opened FiniteSets
  import opened Machine

  const PT_LOAD := 1
  const EINVAL := 22
  const ENOMEM := 12
  const PTE_MASK := 6          // PTE_WRITABLE | PTE_USER

  /** Elf32_Phdr. */
  datatype Segment = Segment(kind: int, offset: int, vaddr: int, filesz: int, memsz: int, align: int)

  /** A segment the loader is meant for: file part inside the file and no longer than the memory part, user
      addresses. */
  predicate Loadable(s: Segment, elf: seq<int>) {
    && 0 <= s.offset && 0 <= s.filesz <= s.memsz && s.offset + s.filesz <= |elf|
    && USER_BASE <= s.vaddr < KERN_OFF && s.vaddr + s.memsz <= KERN_OFF
  }

  function Zeros(n: nat): (r: seq<int>)
    ensures |r| == n && forall i :: 0 <= i < n ==> r[i] == 0
  {
    seq(n, _ => 0)
  }

  /** The pages lo..hi are the ones the loader touches. A first page that is only partly used is touched in any case. */
  predicate Spans(s: Segment, lo: int, hi: int) {
    && UserRange(lo, hi) && lo * PAGE <= s.vaddr < (lo + 1) * PAGE
    && s.vaddr + s.memsz <= hi * PAGE
    && (hi == lo || (hi == lo + 1 && lo * PAGE < s.vaddr) || (hi - 1) * PAGE < s.vaddr + s.memsz)
    && (hi == lo ==> s.vaddr == lo * PAGE)
  }

  function FirstPage(s: Segment): int { s.vaddr / PAGE }

  function LastPage(s: Segment): int { PagesUp(s.vaddr + s.memsz) }

  lemma SpansPages(s: Segment, elf: seq<int>)
    requires Loadable(s, elf)
    ensures Spans(s, FirstPage(s), LastPage(s))
  {}

  /** File bytes, then zeroes. */
  function Image(s: Segment, elf: seq<int>, n: int): (r: seq<int>)
    requires Loadable(s, elf) && 0 <= n
    ensures |r| == n
  {
    if n <= s.filesz then elf[s.offset..s.offset + n]
    else elf[s.offset..s.offset + s.filesz] + Zeros(n - s.filesz)
  }

  /** What one page of the segment is filled with: the copied bytes and the zeroes after them. */
  function Chunk(s: Segment, elf: seq<int>, off: int, size: int): (r: seq<int>)
    requires Loadable(s, elf) && 0 <= off && 0 <= size
    ensures |r| == size
  {
    var copied := if off >= s.filesz then 0 else if s.filesz - off > size then size else s.filesz - off;
    (if copied == 0 then [] else elf[s.offset + off..s.offset + off + copied]) + Zeros(size - copied)
  }

  lemma ImageGrows(s: Segment, elf: seq<int>, off: int, next: int)
    requires Loadable(s, elf) && 0 <= off <= next
    ensures Image(s, elf, off) + Chunk(s, elf, off, next - off) == Image(s, elf, next)
  {}

  /** n bytes of the segment's image are in place, and nothing else changed. */
  ghost predicate Laid(m: Mem, r: Mem, d: int, s: Segment, elf: seq<int>, n: int) {
    Loadable(s, elf) && 0 <= n && Stored(m, r, d, s.vaddr, Image(s, elf, n))
  }

  /** The part of the segment below s.vaddr + off is in place, nothing else changed, and no frame was wasted. */
  ghost predicate Progress(m: Mem, r: Mem, d: int, s: Segment, elf: seq<int>, lo: int, hi: int, off: int)
    requires Loadable(s, elf) && UserRange(lo, hi) && 0 <= off
  {
    && Inv(r) && IsDir(r, d) && Later(m, r) && FrameOk(m, d) && FrameOk(r, d)
    && Missing(r, d, lo, hi) + r.edge == Missing(m, d, lo, hi) + m.edge && EntriesKept(m, r, d, lo, hi)
    && if off == 0 then r == m else Laid(m, r, d, s, elf, off)
  }

  lemma ProgressEnd(m: Mem, r: Mem, d: int, s: Segment, elf: seq<int>, lo: int, hi: int, off: int)
    requires Loadable(s, elf) && Spans(s, lo, hi) && 0 <= off && Inv(m) && IsDir(m, d)
    requires Progress(m, r, d, s, elf, lo, hi, off) && s.vaddr + off == hi * PAGE
    ensures Laid(m, r, d, s, elf, off) && r.edge == Missing(m, d, lo, hi) + m.edge <= |m.phys|
  {
    if off == 0 { StoredNothing(m, d, s.vaddr); }
    assert PagesUp(s.vaddr + off) == hi && s.vaddr / PAGE == lo;
    NothingMissing(r, d, lo, hi);
  }

  /** Offset `off` is byte o of page p, one of the segment's; only a first page starts in the middle. */
  predicate At(s: Segment, lo: int, hi: int, off: int, p: int, o: int) {
    0 <= off && s.vaddr + off == p * PAGE + o && 0 <= o < PAGE && (off > 0 ==> o == 0) && lo <= p < hi
  }

  lemma StepCount(a: Mem, b: Mem, d: int, lo: int, hi: int, p: int, f: int, frame: Frame)
    requires Inv(a) && IsDir(a, d) && UserRange(lo, hi) && lo <= p < hi
    requires MapsPage(a, b, d, p, 7) && Walk(b, d, p) == Some(f) && FrameOk(b, f) && IsFrame(frame)
    ensures FrameOk(a, d) && FrameOk(b, d) && FrameOk(Poke(b, f, frame), d)
    ensures Missing(Poke(b, f, frame), d, lo, hi) + b.edge == Missing(a, d, lo, hi) + a.edge
  {
    assert SameRole(a, b, d);
    WalkOwner(b, d, p);
    MapsPageCount(a, b, d, p, lo, hi, 7);
    PokeCount(b, d, f, frame, lo, hi);
  }

  lemma StoredSame(m: Mem, r: Mem, d: int, x: int, s: seq<int>, y: int, t: seq<int>)
    requires Stored(m, r, d, x, s) && x == y && s == t
    ensures Stored(m, r, d, y, t)
  {}

  lemma StepStored(m: Mem, a: Mem, r: Mem, d: int, s: Segment, elf: seq<int>, off: int, next: int, p: int)
    requires Loadable(s, elf) && Inv(m) && IsDir(m, d) && 0 <= off <= next
    requires if off == 0 then a == m else Laid(m, a, d, s, elf, off) && s.vaddr + off == p * PAGE
    requires Stored(a, r, d, s.vaddr + off, Chunk(s, elf, off, next - off))
    ensures Laid(m, r, d, s, elf, next)
  {
    var bytes, image := Chunk(s, elf, off, next - off), Image(s, elf, off);
    ImageGrows(s, elf, off, next);
    if off == 0 {
      StoredSame(m, r, d, s.vaddr + off, bytes, s.vaddr, image + bytes);
    } else {
      StoredAbove(m, a, r, d, s.vaddr, image, p, bytes);
      StoredSame(m, r, d, s.vaddr, image + bytes, s.vaddr, Image(s, elf, next));
    }
  }

  lemma StepImage(m: Mem, a: Mem, b: Mem, d: int, s: Segment, elf: seq<int>, lo: int, hi: int,
                  off: int, next: int, p: int, o: int, f: int)
    requires Loadable(s, elf) && Inv(m) && IsDir(m, d) && UserRange(lo, hi) && At(s, lo, hi, off, p, o)
    requires Progress(m, a, d, s, elf, lo, hi, off)
    requires next == off + PAGE - o && MapsPage(a, b, d, p, 7) && Walk(b, d, p) == Some(f) && FrameOk(b, f)
    ensures var r := Poke(b, f, Splice(b.phys[f], o, Chunk(s, elf, off, next - off)));
            Laid(m, r, d, s, elf, next) && IsDir(r, d) && f != d
  {
    var bytes := Chunk(s, elf, off, next - off);
    var r := Poke(b, f, Splice(b.phys[f], o, bytes));
    StoredPage(a, b, d, p, f, o, s.vaddr + off, bytes);
    StepStored(m, a, r, d, s, elf, off, next, p);
    assert SameRole(m, r, d) && SameRole(a, b, d);
    WalkOwner(b, d, p);
  }

  lemma ProgressStep(m: Mem, a: Mem, b: Mem, d: int, s: Segment, elf: seq<int>, lo: int, hi: int,
                     off: int, next: int, p: int, o: int, f: int)
    requires Loadable(s, elf) && Inv(m) && IsDir(m, d) && UserRange(lo, hi) && At(s, lo, hi, off, p, o)
    requires Progress(m, a, d, s, elf, lo, hi, off)
    requires next == off + PAGE - o && MapsPage(a, b, d, p, 7) && Walk(b, d, p) == Some(f) && FrameOk(b, f)
    ensures Progress(m, Poke(b, f, Splice(b.phys[f], o, Chunk(s, elf, off, next - off))), d, s, elf, lo, hi, next)
  {
    var frame := Splice(b.phys[f], o, Chunk(s, elf, off, next - off));
    StepImage(m, a, b, d, s, elf, lo, hi, off, next, p, o, f);
    StepCount(a, b, d, lo, hi, p, f, frame);
    EntriesStep(m, a, b, d, p, f, frame, lo, hi, 7);
  }

  /** The frames ran out with `off` bytes of the segment in place and nothing else changed. */
  ghost predicate Halted(m: Mem, r: Mem, d: int, s: Segment, elf: seq<int>, off: int) {
    && 0 <= off && Inv(r) && IsDir(r, d) && FrameOk(r, d) && Later(m, r) && r.edge == |r.phys|
    && if off == 0 then Grown(m, r, d, FirstPage(s), FirstPage(s), 7) else Laid(m, r, d, s, elf, off)
  }

  lemma HaltedHere(m: Mem, a: Mem, b: Mem, d: int, s: Segment, elf: seq<int>, lo: int, hi: int,
                   off: int, p: int, o: int)
    requires Loadable(s, elf) && Inv(m) && IsDir(m, d) && UserRange(lo, hi) && At(s, lo, hi, off, p, o)
    requires Progress(m, a, d, s, elf, lo, hi, off) && Grown(a, b, d, p, p, 7)
    requires IsDir(b, d) && FrameOk(b, d) && b.edge == |b.phys|
    ensures Halted(m, b, d, s, elf, off)
  {
    LaterTransitive(m, a, b);
    if off == 0 {
      assert p == FirstPage(s);
    } else {
      StoredThenGrown(m, a, b, d, s.vaddr, Image(s, elf, off), p);
    }
  }

  /** One page of the segment, from offset `off` to the end of that page. */
  method LoadPage(mem: Memory, d: int, s: Segment, elf: seq<int>, off: int, next: int, page: int,
                  ghost m: Mem, ghost lo: int, ghost hi: int)
    returns (ok: bool)
    requires Loadable(s, elf) && Inv(m) && IsDir(m, d) && UserRange(lo, hi)
    requires At(s, lo, hi, off, page, off + PAGE - next)
    requires Progress(m, mem.Value(), d, s, elf, lo, hi, off)
    modifies mem`phys, mem`edge, mem`owner
    ensures ok ==> Progress(m, mem.Value(), d, s, elf, lo, hi, next)
    ensures !ok ==> Halted(m, mem.Value(), d, s, elf, off)
    ensures !ok ==> FrameOk(m, d) && Missing(m, d, lo, hi) + m.edge > |m.phys|
  {
    ghost var a := mem.Value();
    CostCounts(a, d, page, lo, hi);
    assert page * PAGE / PAGE == page;
    var addr := mem.PagedirGetOrNew(d, page * PAGE, PTE_MASK);
    ghost var b := mem.Value();
    WritableFlags();
    if addr == 0 {
      HaltedHere(m, a, b, d, s, elf, lo, hi, off, page, off + PAGE - next);
      return false;
    }
    WalkOwner(b, d, page);
    var f, voff := addr / PAGE, off + PAGE - next;
    mem.phys := mem.phys[f := Splice(mem.phys[f], voff, Chunk(s, elf, off, next - off))];
    ProgressStep(m, a, b, d, s, elf, lo, hi, off, next, page, voff, f);
    ok := true;
  }

  /** Frames in use once the whole segment is mapped. */
  function EdgeAfter(m: Mem, d: int, s: Segment, elf: seq<int>): (n: int)
    requires FrameOk(m, d) && Loadable(s, elf)
  {
    SpansPages(s, elf);
    m.edge + Missing(m, d, FirstPage(s), LastPage(s))
  }

  /** The bytes a loaded segment leaves at its address: the file part, then zeroes up to the end of the last page. */
  function Loaded(s: Segment, elf: seq<int>): (r: seq<int>)
    requires Loadable(s, elf)
  {
    SpansPages(s, elf);
    Image(s, elf, LastPage(s) * PAGE - s.vaddr)
  }

  /** Byte i behind the start of the segment reads as it should: from the file, or zero. */
  ghost predicate Right(r: Mem, d: int, s: Segment, elf: seq<int>, i: int)
    requires Loadable(s, elf) && 0 <= i
  {
    UserAddress(s.vaddr + i) && Reads(r, d, s.vaddr + i, if i < s.filesz then elf[s.offset + i] else 0)
  }

  /** Reading through the page tables gives the file bytes of the segment and zeroes after them. */
  ghost predicate InPlace(r: Mem, d: int, s: Segment, elf: seq<int>)
    requires Loadable(s, elf)
  {
    forall i :: 0 <= i < s.memsz ==> Right(r, d, s, elf, i)
  }

  /** Page p has been mapped; if it was not before, then present, writable and for the user. */
  ghost predicate Writable(m: Mem, r: Mem, d: int, p: int) {
    && UserPage(p) && FrameOk(m, d) && FrameOk(r, d) && PteAt(r, d, p) != 0
    && PteAt(r, d, p) == (if PteAt(m, d, p) != 0 then PteAt(m, d, p) else PteAt(r, d, p) / 4096 * 4096 + 7)
  }

  /** All of the last page is filled, and every page of the segment that is new can be written. */
  lemma LoadedBytes(m: Mem, r: Mem, d: int, s: Segment, elf: seq<int>)
    requires Loadable(s, elf) && Stored(m, r, d, s.vaddr, Loaded(s, elf))
    ensures forall i :: 0 <= i < LastPage(s) * PAGE - s.vaddr ==> Right(r, d, s, elf, i)
    ensures forall p :: FirstPage(s) <= p < LastPage(s) ==> Writable(m, r, d, p)
  {
    SpansPages(s, elf);
    var n := LastPage(s) * PAGE - s.vaddr;
    forall i | 0 <= i < n ensures Right(r, d, s, elf, i) { assert ReadsAt(r, d, s.vaddr, i, Loaded(s, elf)); }
    assert PagesUp(s.vaddr + |Loaded(s, elf)|) == LastPage(s);
    forall p | FirstPage(s) <= p < LastPage(s) ensures Writable(m, r, d, p) {
      assert Backed(r, d, p) && Continued(m, r, d, p, 7);
    }
  }

  /**
   Loads one segment. On success exactly the segment's pages are mapped in addition, and they hold the file bytes
   followed by zeroes to the end of the last page; it fails exactly for a wrong alignment or too little memory, and in
   the latter case leaves every frame taken and the first `off` bytes in place.
   */
  method LoadSegment(mem: Memory, d: int, s: Segment, elf: seq<int>) returns (err: int, ghost off: int)
    requires Inv(mem.Value()) && IsDir(mem.Value(), d) && FrameOk(mem.Value(), d) && Loadable(s, elf)
    modifies mem`phys, mem`edge, mem`owner
    ensures Inv(mem.Value()) && IsDir(mem.Value(), d) && FrameOk(mem.Value(), d) && Later(old(mem.Value()), mem.Value())
    ensures s.align != 4096 ==> err == -22 && mem.Value() == old(mem.Value())
    ensures s.align == PAGE && old(EdgeAfter(mem.Value(), d, s, elf)) > |mem.phys| ==> err == -12
    ensures s.align == PAGE && old(EdgeAfter(mem.Value(), d, s, elf)) <= |mem.phys| ==> err == 0
    ensures s.align == PAGE && err != 0 ==> Halted(old(mem.Value()), mem.Value(), d, s, elf, off)
    ensures err == 0 ==> Stored(old(mem.Value()), mem.Value(), d, s.vaddr, Loaded(s, elf))
    ensures err == 0 ==> forall i :: 0 <= i < LastPage(s) * PAGE - s.vaddr ==> Right(mem.Value(), d, s, elf, i)
    ensures err == 0 ==> forall p :: FirstPage(s) <= p < LastPage(s) ==> Writable(old(mem.Value()), mem.Value(), d, p)
    ensures err == 0 ==> mem.edge == old(EdgeAfter(mem.Value(), d, s, elf))
    ensures err == 0 ==> EntriesKept(old(mem.Value()), mem.Value(), d, FirstPage(s), LastPage(s))
  {
    ghost var m := mem.Value();
    assert forall f :: f in m.owner ==> SameRole(m, m, f);
    off := 0;
    if s.align != PAGE { return -EINVAL, 0; }
    ghost var lo, hi := FirstPage(s), LastPage(s);
    SpansPages(s, elf);
    var start := 0;
    var page := s.vaddr / PAGE;
    if s.vaddr % PAGE != 0 {
      var next := PAGE - s.vaddr % PAGE;
      var done := LoadPage(mem, d, s, elf, 0, next, page, m, lo, hi);
      if !done { return -ENOMEM, 0; }
      start, page := next, page + 1;
    }
    var ok;
    ok, off := LoadPages(mem, d, s, elf, start, page, m, lo, hi);
    if !ok { return -ENOMEM, off; }
    assert Image(s, elf, hi * PAGE - s.vaddr) == Loaded(s, elf);
    StoredSame(m, mem.Value(), d, s.vaddr, Image(s, elf, hi * PAGE - s.vaddr), s.vaddr, Loaded(s, elf));
    LoadedBytes(m, mem.Value(), d, s, elf);
    err := 0;
  }

  /** The pages from offset `start`, a page boundary, to the end of the segment. */
  method LoadPages(mem: Memory, d: int, s: Segment, elf: seq<int>, start: int, first: int,
                   ghost m: Mem, ghost lo: int, ghost hi: int)
    returns (ok: bool, ghost reached: int)
    requires Loadable(s, elf) && Inv(m) && IsDir(m, d) && Spans(s, lo, hi)
    requires 0 <= start && s.vaddr + start == first * PAGE && lo <= first <= hi
    requires Progress(m, mem.Value(), d, s, elf, lo, hi, start)
    modifies mem`phys, mem`edge, mem`owner
    ensures Inv(mem.Value()) && IsDir(mem.Value(), d) && FrameOk(mem.Value(), d)
    ensures FrameOk(m, d) && Later(m, mem.Value())
    ensures ok <==> Missing(m, d, lo, hi) + m.edge <= |m.phys|
    ensures !ok ==> Halted(m, mem.Value(), d, s, elf, reached)
    ensures ok ==> mem.edge == Missing(m, d, lo, hi) + m.edge
    ensures ok ==> Laid(m, mem.Value(), d, s, elf, hi * PAGE - s.vaddr)
    ensures ok ==> EntriesKept(m, mem.Value(), d, lo, hi)
  {
    var off, page := start, first;
    while off < s.memsz
      invariant 0 <= off && s.vaddr + off == page * PAGE && lo <= page <= hi
      invariant Progress(m, mem.Value(), d, s, elf, lo, hi, off)
    {
      var next := off + PAGE;
      var done := LoadPage(mem, d, s, elf, off, next, page, m, lo, hi);
      if !done { return false, off; }
      off, page := next, page + 1;
    }
    assert page == hi;
    ProgressEnd(m, mem.Value(), d, s, elf, lo, hi, off);
    ok, reached := true, 0;
  }

  // ---------- the program headers ----------

  /** Loading a segment, or a part of it, that starts at or above the end of another leaves the other in place. */
  lemma StaysInPlace(a: Mem, b: Mem, d: int, s: Segment, t: Segment, elf: seq<int>, bytes: seq<int>)
    requires Loadable(s, elf) && Loadable(t, elf) && IsDir(a, d) && InPlace(a, d, s, elf)
    requires s.vaddr + s.memsz <= t.vaddr && Stored(a, b, d, t.vaddr, bytes)
    ensures InPlace(b, d, s, elf)
  {
    forall i | 0 <= i < s.memsz ensures Right(b, d, s, elf, i) {
      assert Right(a, d, s, elf, i);
      assert ViewKept(a, b, d, s.vaddr + i);
    }
  }

  lemma LoadedInPlace(m: Mem, r: Mem, d: int, s: Segment, elf: seq<int>)
    requires Loadable(s, elf) && Stored(m, r, d, s.vaddr, Loaded(s, elf))
    ensures InPlace(r, d, s, elf)
  {
    LoadedBytes(m, r, d, s, elf);
  }

  predicate Load(hs: seq<Segment>, k: int) { 0 <= k < |hs| && hs[k].kind == 1 }

  predicate LoadableAt(hs: seq<Segment>, elf: seq<int>, k: int)
    requires Load(hs, k)
  {
    Loadable(hs[k], elf)
  }

  predicate EndsBefore(hs: seq<Segment>, i: int, j: int)
    requires Load(hs, i) && Load(hs, j)
  {
    hs[i].vaddr + hs[i].memsz <= hs[j].vaddr
  }

  /** The loadable segments are in ascending order and do not overlap. They may share pages. */
  ghost predicate Ascending(hs: seq<Segment>, elf: seq<int>) {
    && (forall k :: Load(hs, k) ==> LoadableAt(hs, elf, k))
    && (forall i, j :: Load(hs, i) && Load(hs, j) && i < j ==> EndsBefore(hs, i, j))
  }

  ghost predicate InPlaceAt(r: Mem, d: int, hs: seq<Segment>, elf: seq<int>, k: int)
    requires Load(hs, k) && LoadableAt(hs, elf, k)
  {
    InPlace(r, d, hs[k], elf)
  }

  /** Page p holds an address of segment k, or the unused start of its first page. */
  predicate Covers(hs: seq<Segment>, k: int, p: int) {
    Load(hs, k) && hs[k].vaddr / 4096 <= p && p * 4096 < hs[k].vaddr + hs[k].memsz
  }

  lemma CoversPages(hs: seq<Segment>, k: int, p: int)
    requires Load(hs, k)
    ensures Covers(hs, k, p) <==> FirstPage(hs[k]) <= p < LastPage(hs[k])
  {}

  /** Page p is mapped if and only if it was, or belongs to one of the first n segments; a page that was mapped keeps
      its entry, and a new one is present, writable and for the user. */
  ghost predicate MappedFor(m: Mem, r: Mem, d: int, hs: seq<Segment>, n: int, p: int)
    requires UserPage(p)
  {
    && FrameOk(m, d) && FrameOk(r, d)
    && (PteAt(r, d, p) != 0 <==> PteAt(m, d, p) != 0 || exists k :: k < n && Covers(hs, k, p))
    && (PteAt(m, d, p) != 0 ==> PteAt(r, d, p) == PteAt(m, d, p))
    && (PteAt(m, d, p) == 0 && PteAt(r, d, p) != 0 ==> PteAt(r, d, p) % 4096 == 7)
  }

  /** The first n headers have been dealt with. */
  ghost predicate Running(m: Mem, r: Mem, d: int, hs: seq<Segment>, elf: seq<int>, n: int)
    requires Ascending(hs, elf) && n <= |hs|
  {
    && Inv(r) && IsDir(r, d) && FrameOk(r, d) && Later(m, r) && Isolated(m, r, d)
    && (forall k :: Load(hs, k) && k < n ==> InPlaceAt(r, d, hs, elf, k))
    && (forall p :: UserPage(p) ==> MappedFor(m, r, d, hs, n, p))
  }

  lemma RunningSkip(m: Mem, r: Mem, d: int, hs: seq<Segment>, elf: seq<int>, n: int)
    requires Ascending(hs, elf) && 0 <= n < |hs| && Running(m, r, d, hs, elf, n) && !Load(hs, n)
    ensures Running(m, r, d, hs, elf, n + 1)
  {
    forall p | UserPage(p) ensures MappedFor(m, r, d, hs, n + 1, p) {
      assert MappedFor(m, r, d, hs, n, p);
    }
  }

  lemma RunningStep(m: Mem, a: Mem, b: Mem, d: int, hs: seq<Segment>, elf: seq<int>, n: int)
    requires Ascending(hs, elf) && 0 <= n < |hs| && Load(hs, n) && LoadableAt(hs, elf, n)
    requires Running(m, a, d, hs, elf, n) && Inv(b) && IsDir(b, d) && FrameOk(b, d)
    requires Later(a, b) && Stored(a, b, d, hs[n].vaddr, Loaded(hs[n], elf))
    ensures Running(m, b, d, hs, elf, n + 1)
  {
    LaterTransitive(m, a, b);
    StoredIsolates(a, b, d, hs[n].vaddr, Loaded(hs[n], elf));
    IsolatedTransitive(m, a, b, d);
    forall k | Load(hs, k) && k < n + 1 ensures InPlaceAt(b, d, hs, elf, k) {
      assert LoadableAt(hs, elf, k);
      if k == n {
        LoadedInPlace(a, b, d, hs[n], elf);
      } else {
        assert InPlaceAt(a, d, hs, elf, k) && EndsBefore(hs, k, n);
        StaysInPlace(a, b, d, hs[k], hs[n], elf, Loaded(hs[n], elf));
      }
    }
    forall p | UserPage(p) ensures MappedFor(m, b, d, hs, n + 1, p) {
      assert MappedFor(m, a, d, hs, n, p);
      StoredMaps(a, b, d, hs[n], elf, p);
      CoversPages(hs, n, p);
    }
  }

  lemma StoredMaps(a: Mem, b: Mem, d: int, s: Segment, elf: seq<int>, p: int)
    requires Loadable(s, elf) && UserPage(p) && IsDir(a, d) && Stored(a, b, d, s.vaddr, Loaded(s, elf))
    ensures FrameOk(a, d) && FrameOk(b, d)
    ensures PteAt(b, d, p) != 0 <==> PteAt(a, d, p) != 0 || FirstPage(s) <= p < LastPage(s)
    ensures PteAt(a, d, p) != 0 ==> PteAt(b, d, p) == PteAt(a, d, p)
    ensures PteAt(a, d, p) == 0 && PteAt(b, d, p) != 0 ==> PteAt(b, d, p) % 4096 == 7
  {
    SpansPages(s, elf);
    assert PagesUp(s.vaddr + |Loaded(s, elf)|) == LastPage(s);
    if FirstPage(s) <= p < LastPage(s) {
      assert Backed(b, d, p) && Continued(a, b, d, p, 7);
    } else {
      assert WalkKept(a, b, d, p);
    }
  }

  /** Largest end of a loadable segment among the first n. */
  function ImageEnd(hs: seq<Segment>, n: int): (r: int)
    requires 0 <= n <= |hs|
    ensures r >= 0
    ensures forall k :: Load(hs, k) && k < n ==> hs[k].vaddr + hs[k].memsz <= r
    ensures r == 0 || exists k :: Load(hs, k) && k < n && hs[k].vaddr + hs[k].memsz == r
  {
    if n == 0 then 0
    else
      var before := ImageEnd(hs, n - 1);
      if Load(hs, n - 1) && before < hs[n - 1].vaddr + hs[n - 1].memsz
      then hs[n - 1].vaddr + hs[n - 1].memsz else before
  }

  predicate PageAligned(hs: seq<Segment>, k: int)
    requires Load(hs, k)
  {
    hs[k].align == PAGE
  }

  // ---------- frames for the whole program ----------

  ghost predicate Covered(hs: seq<Segment>, n: int, p: int) { exists k :: k < n && Covers(hs, k, p) }

  predicate CoversEntry(hs: seq<Segment>, k: int, i: int) {
    Load(hs, k) && PdeOf(FirstPage(hs[k])) <= i < LastPde(FirstPage(hs[k]), LastPage(hs[k]))
  }

  ghost predicate CoveredEntry(hs: seq<Segment>, n: int, i: int) { exists k :: k < n && CoversEntry(hs, k, i) }

  /** The pages of the first n segments that m does not map, each once. */
  ghost function PagesNeeded(m: Mem, d: int, hs: seq<Segment>, n: int): set<int>
    requires FrameOk(m, d)
  {
    set p | WORDS <= p < KERN_PDE * WORDS && Unmapped(m, d, p) && Covered(hs, n, p)
  }

  /** The directory entries they use for which m has no table. */
  ghost function TablesNeeded(m: Mem, d: int, hs: seq<Segment>, n: int): set<int>
    requires FrameOk(m, d)
  {
    set i | 0 <= i < WORDS && NoTable(m, d, i) && CoveredEntry(hs, n, i)
  }

  ghost function FramesNeeded(m: Mem, d: int, hs: seq<Segment>, n: int): nat
    requires FrameOk(m, d)
  {
    |PagesNeeded(m, d, hs, n)| + |TablesNeeded(m, d, hs, n)|
  }

  ghost predicate EntryFor(m: Mem, r: Mem, d: int, hs: seq<Segment>, n: int, i: int)
    requires 0 <= i < WORDS
  {
    && FrameOk(m, d) && FrameOk(r, d)
    && (NoTable(r, d, i) <==> NoTable(m, d, i) && !CoveredEntry(hs, n, i))
  }

  /** The first n segments took exactly the frames they need together, and every one of them could be loaded. */
  ghost predicate Paid(m: Mem, r: Mem, d: int, hs: seq<Segment>, n: int) {
    && FrameOk(m, d) && r.edge == m.edge + FramesNeeded(m, d, hs, n)
    && (forall i :: 0 <= i < WORDS ==> EntryFor(m, r, d, hs, n, i))
    && (forall k :: Load(hs, k) && k < n ==> PageAligned(hs, k))
  }

  lemma NeededGrows(m: Mem, d: int, hs: seq<Segment>, n: int, k: int)
    requires FrameOk(m, d) && n <= k
    ensures FramesNeeded(m, d, hs, n) <= FramesNeeded(m, d, hs, k)
  {
    Fewer(PagesNeeded(m, d, hs, n), PagesNeeded(m, d, hs, k));
    Fewer(TablesNeeded(m, d, hs, n), TablesNeeded(m, d, hs, k));
  }

  lemma OneMore(hs: seq<Segment>, n: int, p: int, i: int)
    ensures Covered(hs, n + 1, p) <==> Covered(hs, n, p) || Covers(hs, n, p)
    ensures CoveredEntry(hs, n + 1, i) <==> CoveredEntry(hs, n, i) || CoversEntry(hs, n, i)
  {
    if k :| k < n + 1 && Covers(hs, k, p) { assert k == n || k < n; }
    if k :| k < n + 1 && CoversEntry(hs, k, i) { assert k == n || k < n; }
  }

  /** What segment n needs when its turn comes is what it adds to the pages needed. */
  lemma PagesAdded(m: Mem, a: Mem, d: int, hs: seq<Segment>, elf: seq<int>, n: int)
    requires Ascending(hs, elf) && Load(hs, n) && LoadableAt(hs, elf, n)
    requires Running(m, a, d, hs, elf, n) && FrameOk(m, d)
    ensures UserRange(FirstPage(hs[n]), LastPage(hs[n]))
    ensures |PagesNeeded(m, d, hs, n + 1)|
         == |PagesNeeded(m, d, hs, n)| + MissingPages(a, d, FirstPage(hs[n]), LastPage(hs[n]))
  {
    SpansPages(hs[n], elf);
    var lo, hi := FirstPage(hs[n]), LastPage(hs[n]);
    var was, more, all := PagesNeeded(m, d, hs, n), PageSet(a, d, lo, hi), PagesNeeded(m, d, hs, n + 1);
    forall p ensures (p in all <==> p in was || p in more) && !(p in was && p in more) {
      PageTurn(m, a, d, hs, n, lo, hi, p);
    }
    assert all == was + more && was !! more;
    AddUp(was, more, all);
    PageSetSize(a, d, lo, hi);
  }

  lemma PageTurn(m: Mem, a: Mem, d: int, hs: seq<Segment>, n: int, lo: int, hi: int, p: int)
    requires FrameOk(m, d) && FrameOk(a, d) && UserRange(lo, hi)
    requires Load(hs, n) && lo == FirstPage(hs[n]) && hi == LastPage(hs[n])
    requires UserPage(p) ==> MappedFor(m, a, d, hs, n, p)
    ensures p in PagesNeeded(m, d, hs, n + 1) <==> p in PagesNeeded(m, d, hs, n) || p in PageSet(a, d, lo, hi)
    ensures !(p in PagesNeeded(m, d, hs, n) && p in PageSet(a, d, lo, hi))
  {
    OneMore(hs, n, p, 0);
    CoversPages(hs, n, p);
  }

  lemma TablesAdded(m: Mem, a: Mem, d: int, hs: seq<Segment>, elf: seq<int>, n: int)
    requires Ascending(hs, elf) && Load(hs, n) && LoadableAt(hs, elf, n) && FrameOk(a, d) && Paid(m, a, d, hs, n)
    ensures UserRange(FirstPage(hs[n]), LastPage(hs[n]))
    ensures var lo, hi := FirstPage(hs[n]), LastPage(hs[n]);
            && 0 <= PdeOf(lo) <= LastPde(lo, hi) <= WORDS
            && |TablesNeeded(m, d, hs, n + 1)|
               == |TablesNeeded(m, d, hs, n)| + MissingTables(a, d, PdeOf(lo), LastPde(lo, hi))
  {
    SpansPages(hs[n], elf);
    var lo, hi := FirstPage(hs[n]), LastPage(hs[n]);
    PdeInRange(lo, hi, lo);
    EntriesAdded(m, a, d, hs, n, PdeOf(lo), LastPde(lo, hi));
  }

  lemma EntriesAdded(m: Mem, a: Mem, d: int, hs: seq<Segment>, n: int, i0: int, i1: int)
    requires FrameOk(m, d) && FrameOk(a, d) && 0 <= i0 <= i1 <= WORDS && Load(hs, n)
    requires i0 == PdeOf(FirstPage(hs[n])) && i1 == LastPde(FirstPage(hs[n]), LastPage(hs[n]))
    requires forall i :: 0 <= i < WORDS ==> EntryFor(m, a, d, hs, n, i)
    ensures |TablesNeeded(m, d, hs, n + 1)| == |TablesNeeded(m, d, hs, n)| + MissingTables(a, d, i0, i1)
  {
    var was, more, all := TablesNeeded(m, d, hs, n), TableSet(a, d, i0, i1), TablesNeeded(m, d, hs, n + 1);
    forall i ensures (i in all <==> i in was || i in more) && !(i in was && i in more) {
      if 0 <= i < WORDS { assert EntryFor(m, a, d, hs, n, i); }
      EntryTurn(m, a, d, hs, n, i0, i1, i);
    }
    assert all == was + more && was !! more;
    AddUp(was, more, all);
    TableSetSize(a, d, i0, i1);
  }

  lemma EntryTurn(m: Mem, a: Mem, d: int, hs: seq<Segment>, n: int, i0: int, i1: int, i: int)
    requires FrameOk(m, d) && FrameOk(a, d) && 0 <= i0 <= i1 <= WORDS && Load(hs, n)
    requires i0 == PdeOf(FirstPage(hs[n])) && i1 == LastPde(FirstPage(hs[n]), LastPage(hs[n]))
    requires 0 <= i < WORDS ==> EntryFor(m, a, d, hs, n, i)
    ensures i in TablesNeeded(m, d, hs, n + 1) <==> i in TablesNeeded(m, d, hs, n) || i in TableSet(a, d, i0, i1)
    ensures !(i in TablesNeeded(m, d, hs, n) && i in TableSet(a, d, i0, i1))
  {
    OneMore(hs, n, 0, i);
  }

  lemma FramesAdded(m: Mem, a: Mem, d: int, hs: seq<Segment>, elf: seq<int>, n: int)
    requires Ascending(hs, elf) && Load(hs, n) && LoadableAt(hs, elf, n)
    requires Running(m, a, d, hs, elf, n) && Paid(m, a, d, hs, n)
    ensures EdgeAfter(a, d, hs[n], elf) == m.edge + FramesNeeded(m, d, hs, n + 1)
    ensures FramesNeeded(m, d, hs, n + 1) <= FramesNeeded(m, d, hs, |hs|)
  {
    PagesAdded(m, a, d, hs, elf, n);
    TablesAdded(m, a, d, hs, elf, n);
    NeededGrows(m, d, hs, n + 1, |hs|);
  }

  /** A segment that is mapped throughout has all its tables. */
  lemma EntriesFull(b: Mem, d: int, lo: int, hi: int, i: int)
    requires FrameOk(b, d) && UserRange(lo, hi) && PdeOf(lo) <= i < LastPde(lo, hi)
    requires forall p :: UserPage(p) && lo <= p < hi ==> Backed(b, d, p)
    ensures !NoTable(b, d, i)
  {
    PdeInRange(lo, hi, lo);
    var p := if i == PdeOf(lo) then lo else i * WORDS;
    assert lo <= p < hi && PdeOf(p) == i;
    assert Backed(b, d, p);
  }

  lemma PaidStep(m: Mem, a: Mem, b: Mem, d: int, hs: seq<Segment>, elf: seq<int>, n: int)
    requires Ascending(hs, elf) && Load(hs, n) && LoadableAt(hs, elf, n) && PageAligned(hs, n)
    requires Running(m, a, d, hs, elf, n) && Paid(m, a, d, hs, n)
    requires FrameOk(b, d) && Stored(a, b, d, hs[n].vaddr, Loaded(hs[n], elf))
    requires EntriesKept(a, b, d, FirstPage(hs[n]), LastPage(hs[n])) && b.edge == EdgeAfter(a, d, hs[n], elf)
    ensures Paid(m, b, d, hs, n + 1)
  {
    FramesAdded(m, a, d, hs, elf, n);
    SpansPages(hs[n], elf);
    var lo, hi := FirstPage(hs[n]), LastPage(hs[n]);
    assert hs[n].vaddr / PAGE == lo && PagesUp(hs[n].vaddr + |Loaded(hs[n], elf)|) == hi;
    var next := n + 1;
    forall i | 0 <= i < WORDS ensures EntryFor(m, b, d, hs, next, i) {
      OneMore(hs, n, 0, i);
      assert EntryFor(m, a, d, hs, n, i);
      if PdeOf(lo) <= i < LastPde(lo, hi) { EntriesFull(b, d, lo, hi, i); } else { assert EntryKept(a, b, d, i); }
    }
  }

  lemma PaidSkip(m: Mem, a: Mem, d: int, hs: seq<Segment>, n: int)
    requires Paid(m, a, d, hs, n) && !Load(hs, n)
    ensures Paid(m, a, d, hs, n + 1)
  {
    forall p ensures Covered(hs, n + 1, p) <==> Covered(hs, n, p) { OneMore(hs, n, p, 0); }
    forall i ensures CoveredEntry(hs, n + 1, i) <==> CoveredEntry(hs, n, i) { OneMore(hs, n, 0, i); }
    assert PagesNeeded(m, d, hs, n + 1) == PagesNeeded(m, d, hs, n);
    assert TablesNeeded(m, d, hs, n + 1) == TablesNeeded(m, d, hs, n);
    var next := n + 1;
    forall i | 0 <= i < WORDS ensures EntryFor(m, a, d, hs, next, i) { assert EntryFor(m, a, d, hs, n, i); }
  }

  lemma RunningStart(m: Mem, d: int, hs: seq<Segment>, elf: seq<int>)
    requires Inv(m) && IsDir(m, d) && FrameOk(m, d) && Ascending(hs, elf)
    ensures Running(m, m, d, hs, elf, 0) && Paid(m, m, d, hs, 0)
  {
    assert forall f :: f in m.owner ==> SameRole(m, m, f);
    IsolatedRefl(m, d);
    forall p | UserPage(p) ensures MappedFor(m, m, d, hs, 0, p) {
      assert forall k :: k < 0 ==> !Covers(hs, k, p);
    }
    assert PagesNeeded(m, d, hs, 0) == {} && TablesNeeded(m, d, hs, 0) == {};
    forall i | 0 <= i < WORDS ensures EntryFor(m, m, d, hs, 0, i) {}
  }

  /** Header n could not be loaded; the segments before it are in place. */
  ghost predicate GaveUp(m: Mem, r: Mem, d: int, hs: seq<Segment>, elf: seq<int>, n: int)
    requires Ascending(hs, elf)
  {
    && Inv(r) && IsDir(r, d) && FrameOk(r, d) && Later(m, r) && Isolated(m, r, d)
    && Load(hs, n) && (hs[n].align != 4096 || r.edge == |r.phys|)
    && forall k :: Load(hs, k) && k < n ==> InPlaceAt(r, d, hs, elf, k)
  }

  lemma HaltedGivesUp(m: Mem, a: Mem, b: Mem, d: int, hs: seq<Segment>, elf: seq<int>, n: int, off: int)
    requires Ascending(hs, elf) && Load(hs, n) && LoadableAt(hs, elf, n) && Inv(a)
    requires Running(m, a, d, hs, elf, n) && Halted(a, b, d, hs[n], elf, off)
    ensures GaveUp(m, b, d, hs, elf, n)
  {
    LaterTransitive(m, a, b);
    if off == 0 {
      GrownIsolates(a, b, d, FirstPage(hs[n]));
    } else {
      StoredIsolates(a, b, d, hs[n].vaddr, Image(hs[n], elf, off));
    }
    IsolatedTransitive(m, a, b, d);
    forall k | Load(hs, k) && k < n ensures InPlaceAt(b, d, hs, elf, k) {
      assert LoadableAt(hs, elf, k) && InPlaceAt(a, d, hs, elf, k) && EndsBefore(hs, k, n);
      if off == 0 {
        GrownInPlace(a, b, d, hs[k], elf, FirstPage(hs[n]));
      } else {
        StaysInPlace(a, b, d, hs[k], hs[n], elf, Image(hs[n], elf, off));
      }
    }
  }

  lemma GrownInPlace(a: Mem, b: Mem, d: int, s: Segment, elf: seq<int>, p: int)
    requires Loadable(s, elf) && Inv(a) && IsDir(a, d) && InPlace(a, d, s, elf) && Grown(a, b, d, p, p, 7)
    ensures InPlace(b, d, s, elf)
  {
    forall i | 0 <= i < s.memsz ensures Right(b, d, s, elf, i) {
      assert Right(a, d, s, elf, i);
      ViewGrown(a, b, d, p, d, s.vaddr + i);
    }
  }

  /** One program header; those that are not PT_LOAD are passed over. */
  method LoadHeader(mem: Memory, d: int, hs: seq<Segment>, elf: seq<int>, n: int, ghost next: int, ghost m: Mem)
    returns (err: int)
    requires Ascending(hs, elf) && 0 <= n < |hs| && next == n + 1
    requires Running(m, mem.Value(), d, hs, elf, n) && Paid(m, mem.Value(), d, hs, n)
    modifies mem`phys, mem`edge, mem`owner
    ensures err == 0 ==> Running(m, mem.Value(), d, hs, elf, next) && Paid(m, mem.Value(), d, hs, next)
    ensures err != 0 ==> GaveUp(m, mem.Value(), d, hs, elf, n) && FrameOk(m, d)
    ensures err != 0 ==> (PageAligned(hs, n) ==> m.edge + FramesNeeded(m, d, hs, |hs|) > |m.phys|)
  {
    ghost var a := mem.Value();
    if hs[n].kind != PT_LOAD {
      RunningSkip(m, a, d, hs, elf, n);
      PaidSkip(m, a, d, hs, n);
      return 0;
    }
    assert Load(hs, n) && LoadableAt(hs, elf, n);
    FramesAdded(m, a, d, hs, elf, n);
    ghost var off;
    err, off := LoadSegment(mem, d, hs[n], elf);
    if err == 0 {
      RunningStep(m, a, mem.Value(), d, hs, elf, n);
      PaidStep(m, a, mem.Value(), d, hs, elf, n);
    } else if hs[n].align == PAGE {
      HaltedGivesUp(m, a, mem.Value(), d, hs, elf, n, off);
    }
  }

  /** Every loadable segment is page-aligned, and there are as many frames as they need together. */
  ghost predicate CanLoad(m: Mem, d: int, hs: seq<Segment>)
    requires FrameOk(m, d)
  {
    (forall k :: Load(hs, k) ==> PageAligned(hs, k)) && m.edge + FramesNeeded(m, d, hs, |hs|) <= |m.phys|
  }

  /**
   Loads every PT_LOAD segment. Success leaves each of them in place, however their pages are shared, maps exactly
   their pages, takes exactly the frames they need together, and puts the start of the heap on the first page boundary
   behind the image. It succeeds exactly if the segments are page-aligned and there are that many frames; otherwise it
   stops at segment `stop`, with those before it in place. Whatever happens, no other directory is touched.
   */
  method LoadProgram(mem: Memory, d: int, hs: seq<Segment>, elf: seq<int>)
    returns (err: int, heapEnd: int, ghost stop: int)
    requires Inv(mem.Value()) && IsDir(mem.Value(), d) && FrameOk(mem.Value(), d) && Ascending(hs, elf)
    modifies mem`phys, mem`edge, mem`owner
    ensures Inv(mem.Value()) && IsDir(mem.Value(), d) && FrameOk(mem.Value(), d) && Later(old(mem.Value()), mem.Value())
    ensures Isolated(old(mem.Value()), mem.Value(), d)
    ensures err == 0 <==> old(CanLoad(mem.Value(), d, hs))
    ensures err != 0 ==> GaveUp(old(mem.Value()), mem.Value(), d, hs, elf, stop)
    ensures err == 0 ==> Running(old(mem.Value()), mem.Value(), d, hs, elf, |hs|)
    ensures err == 0 ==> mem.edge == old(mem.edge + FramesNeeded(mem.Value(), d, hs, |hs|))
    ensures err == 0 ==> heapEnd % 4096 == 0 && forall k :: Load(hs, k) ==> hs[k].vaddr + hs[k].memsz <= heapEnd
    ensures err == 0 ==>
              || (heapEnd == 0 && forall k :: !Load(hs, k))
              || exists k :: Load(hs, k) && heapEnd - 4096 < hs[k].vaddr + hs[k].memsz
  {
    ghost var m := mem.Value();
    RunningStart(m, d, hs, elf);
    var n := 0;
    heapEnd, stop := 0, 0;
    while n < |hs|
      invariant 0 <= n <= |hs| && heapEnd == ImageEnd(hs, n)
      invariant Running(m, mem.Value(), d, hs, elf, n) && Paid(m, mem.Value(), d, hs, n)
    {
      var next := n + 1;
      err := LoadHeader(mem, d, hs, elf, n, next, m);
      if err != 0 {
        stop := n;
        return;
      }
      heapEnd := RaiseEnd(hs, n, next, heapEnd);
      n := next;
    }
    EdgeInside(mem.Value());
    HeapStart(hs, elf, heapEnd);
    heapEnd := PagesUp(heapEnd) * PAGE;
    err := 0;
  }

  /** The first page boundary behind the image; 0 without an image. */
  lemma HeapStart(hs: seq<Segment>, elf: seq<int>, end: int)
    requires Ascending(hs, elf) && end == ImageEnd(hs, |hs|)
    ensures var heap := PagesUp(end) * PAGE;
            && heap % 4096 == 0 && (forall k :: Load(hs, k) ==> hs[k].vaddr + hs[k].memsz <= heap)
            && (|| (heap == 0 && forall k :: !Load(hs, k))
                || exists k :: Load(hs, k) && heap - 4096 < hs[k].vaddr + hs[k].memsz)
  {
    if k :| Load(hs, k) && hs[k].vaddr + hs[k].memsz == end {
      assert PagesUp(end) * PAGE - 4096 < hs[k].vaddr + hs[k].memsz;
    } else {
      assert forall k :: Load(hs, k) ==> LoadableAt(hs, elf, k);
    }
  }

  method RaiseEnd(hs: seq<Segment>, n: int, ghost next: int, end: int) returns (r: int)
    requires 0 <= n < |hs| && next == n + 1 && end == ImageEnd(hs, n)
    ensures r == ImageEnd(hs, next)
  {
    var s := hs[n];
    r := if s.kind == PT_LOAD && end < s.vaddr + s.memsz then s.vaddr + s.memsz else end;
  }

  lemma EdgeInside(m: Mem)
    requires Inv(m)
    ensures m.edge <= |m.phys|
  {}
}
