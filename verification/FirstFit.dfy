/**
 The first-fit heap as the kernel runs it: chunk headers are three 32-bit words inside the
 memory they manage (next, prev, checksum), linked into a ring and updated in place.
 Each operation is proved against the value model in FirstFitSpec and FirstFitRuns.
 */
module FirstFit {
  import opened Options
  import opened FirstFitSpec
  import opened FirstFitRuns

  const USED := 0x8000_0000

  // Memory, one 32-bit word for each 4-aligned address.
  type Memory = map<int, int>

  function Read(m: Memory, a: int): int {
    if a in m then m[a] else 0
  }

  function Uint32(x: int): int { x % TWO32 }

  function Int32(x: int): int { if x < USED then x else x - TWO32 }

  /** The low 31 bits of this + next; the top bit says whether the chunk is used. */
  function Checksum(this_: int, next: int, used: bool): (c: int)
    ensures used <==> c >= USED
  {
    Uint32(this_ + next) % USED + if used then USED else 0
  }

  predicate IsUsed(m: Memory, a: int) { Read(m, a + 8) >= USED }

  predicate CheckSum(m: Memory, a: int) {
    Uint32(a + Read(m, a)) % USED == Read(m, a + 8) % USED
  }

  function GetSize(m: Memory, a: int): int { Uint32(Read(m, a) - a - HEADER) }

  function SetUsed(m: Memory, a: int, used: bool): Memory {
    m[a + 8 := Checksum(a, Read(m, a), used)]
  }

  function SetNext(m: Memory, a: int, next: int): Memory {
    SetUsed(m[a := next], a, IsUsed(m, a))
  }

  function SetPrev(m: Memory, a: int, prev: int): Memory { m[a + 4 := prev] }

  function Erase(m: Memory, a: int): Memory { m[a + 8 := 0] }

  /** The header at `a` reads next, prev, checksum. */
  ghost predicate Header(m: Memory, a: int, next: int, prev: int, used: bool) {
    Read(m, a) == next && Read(m, a + 4) == prev && Read(m, a + 8) == Checksum(a, next, used)
  }

  function SetChunk(m: Memory, a: int, next: int, prev: int, used: bool): Memory {
    SetUsed(m[a := next][a + 4 := prev], a, used)
  }

  /** The upper half of a sum does not reach its lower 31 bits. */
  lemma ChecksumIs(a: int, next: int, used: bool)
    ensures Checksum(a, next, used) == (a + next) % 0x8000_0000 + if used then 0x8000_0000 else 0
  {
    var x := a + next;
    var q, r := x / TWO32, x % TWO32;
    assert x == USED * (2 * q) + r;
    assert x % USED == r % USED;
  }

  lemma SetChunkReads(m: Memory, a: int, next: int, prev: int, used: bool)
    ensures var r := SetChunk(m, a, next, prev, used);
            && Header(r, a, next, prev, used) && (forall x :: x < a || a + 12 <= x ==> Read(r, x) == Read(m, x))
            && Read(r, a) == next && Read(r, a + 4) == prev
            && Read(r, a + 8) == (a + next) % 0x8000_0000 + if used then 0x8000_0000 else 0
  {
    ChecksumIs(a, next, used);
  }

  // ---------- headers in memory ----------

  /** The header of chunk `i` is what the chunk sequence says. */
  ghost predicate HeaderIs(m: Memory, bs: seq<Block>, i: int)
    requires 0 <= i < |bs|
  {
    var a, next := bs[i].addr, bs[Succ(|bs|, i)].addr;
    && Read(m, a) == next
    && Read(m, a + 4) == bs[Pred(|bs|, i)].addr
    && Read(m, a + 8) == Checksum(a, next, bs[i].used)
  }

  /** Every chunk has its header: one ring, prev and next inverse, all checksums right. */
  ghost predicate Encodes(m: Memory, bs: seq<Block>) {
    forall i :: 0 <= i < |bs| ==> HeaderIs(m, bs, i)
  }

  predicate Outside(x: int, a: int) { x < a || a + HEADER <= x }

  /** Words outside the headers at a, b and c are as they were. */
  ghost predicate OnlyHeaders(m: Memory, m': Memory, a: int, b: int, c: int) {
    forall x :: Outside(x, a) && Outside(x, b) && Outside(x, c) ==> Read(m', x) == Read(m, x)
  }

  lemma HeaderKept(m: Memory, m': Memory, bs: seq<Block>, i: int, r: seq<Block>, j: int, a: int, b: int, c: int)
    requires 0 <= i < |bs| && 0 <= j < |r| && HeaderIs(m, bs, i) && OnlyHeaders(m, m', a, b, c)
    requires bs[i] == r[j] && bs[Succ(|bs|, i)].addr == r[Succ(|r|, j)].addr
    requires bs[Pred(|bs|, i)].addr == r[Pred(|r|, j)].addr
    requires a + HEADER <= bs[i].addr || bs[i].addr + HEADER <= a
    requires b + HEADER <= bs[i].addr || bs[i].addr + HEADER <= b
    requires c + HEADER <= bs[i].addr || bs[i].addr + HEADER <= c
    ensures HeaderIs(m', r, j)
  {
    var x := bs[i].addr;
    assert Read(m', x) == Read(m, x);
    assert Read(m', x + 4) == Read(m, x + 4);
    assert Read(m', x + 8) == Read(m, x + 8);
  }

  lemma InsertHeader(m: Memory, m': Memory, bs: seq<Block>, k: int, b: Block, j: int)
    requires Encodes(m, bs) && Ordered(bs) && 0 <= k < |bs| - 1 && 0 <= j <= |bs| && (j < k || j > k + 2)
    requires bs[k].addr + HEADER <= b.addr && b.addr + HEADER <= bs[k + 1].addr
    requires OnlyHeaders(m, m', bs[k].addr, b.addr, bs[k + 1].addr)
    ensures HeaderIs(m', Insert(bs, k + 1, b), j)
  {
    var r := Insert(bs, k + 1, b);
    var o := if j < k then j else j - 1;
    assert Succ(|bs|, o) == 0 <==> Succ(|r|, j) == 0;
    assert Pred(|bs|, o) == |bs| - 1 <==> Pred(|r|, j) == |r| - 1;
    OrderOf(bs, o, k);
    OrderOf(bs, o, k + 1);
    HeaderKept(m, m', bs, o, r, j, bs[k].addr, b.addr, bs[k + 1].addr);
  }

  /** A new header linked in after chunk `k`. */
  lemma InsertEncodes(m: Memory, m': Memory, bs: seq<Block>, k: int, b: Block)
    requires Encodes(m, bs) && Ordered(bs) && 0 <= k < |bs| - 1
    requires bs[k].addr + HEADER <= b.addr && b.addr + HEADER <= bs[k + 1].addr
    requires OnlyHeaders(m, m', bs[k].addr, b.addr, bs[k + 1].addr)
    requires HeaderIs(m', Insert(bs, k + 1, b), k) && HeaderIs(m', Insert(bs, k + 1, b), k + 1)
    requires HeaderIs(m', Insert(bs, k + 1, b), k + 2)
    ensures Encodes(m', Insert(bs, k + 1, b))
  {
    var r := Insert(bs, k + 1, b);
    forall j | 0 <= j <= |bs| && (j < k || j > k + 2) ensures HeaderIs(m', r, j) {
      InsertHeader(m, m', bs, k, b, j);
    }
  }

  lemma DropHeader(m: Memory, m': Memory, bs: seq<Block>, j: int, i: int)
    requires Encodes(m, bs) && Ordered(bs) && 0 < j < |bs| - 1 && 0 <= i < |bs| - 1 && (i < j - 1 || i > j)
    requires OnlyHeaders(m, m', bs[j - 1].addr, bs[j].addr, bs[j + 1].addr)
    ensures HeaderIs(m', Drop(bs, j), i)
  {
    var r := Drop(bs, j);
    var o := if i < j then i else i + 1;
    assert Succ(|bs|, o) == 0 <==> Succ(|r|, i) == 0;
    assert Pred(|bs|, o) == |bs| - 1 <==> Pred(|r|, i) == |r| - 1;
    OrderOf(bs, o, j - 1);
    OrderOf(bs, o, j);
    OrderOf(bs, o, j + 1);
    HeaderKept(m, m', bs, o, r, i, bs[j - 1].addr, bs[j].addr, bs[j + 1].addr);
  }

  /** Chunk j - 1 takes over chunk j. */
  lemma DropEncodes(m: Memory, m': Memory, bs: seq<Block>, j: int)
    requires Encodes(m, bs) && Ordered(bs) && 0 < j < |bs| - 1
    requires OnlyHeaders(m, m', bs[j - 1].addr, bs[j].addr, bs[j + 1].addr)
    requires HeaderIs(m', Drop(bs, j), j - 1) && HeaderIs(m', Drop(bs, j), j)
    ensures Encodes(m', Drop(bs, j))
  {
    var r := Drop(bs, j);
    forall i | 0 <= i < |bs| - 1 && (i < j - 1 || i > j) ensures HeaderIs(m', r, i) {
      DropHeader(m, m', bs, j, i);
    }
  }

  lemma MarkEncodes(m: Memory, bs: seq<Block>, k: int, used: bool)
    requires Encodes(m, bs) && Ordered(bs) && 0 <= k < |bs|
    ensures Encodes(SetUsed(m, bs[k].addr, used), Mark(bs, k, used))
    ensures OnlyHeaders(m, SetUsed(m, bs[k].addr, used), bs[k].addr, bs[k].addr, bs[k].addr)
  {
    var a, r, m' := bs[k].addr, Mark(bs, k, used), SetUsed(m, bs[k].addr, used);
    forall j | 0 <= j < |r| ensures HeaderIs(m', r, j) {
      assert HeaderIs(m, bs, j);
      OrderOf(bs, j, k);
    }
  }

  /** The three header writes of a split, then set_used. */
  function SplitMemory(m: Memory, a: int, cut: int, next: int): Memory {
    var m1 := SetChunk(m, cut, next, a, false);
    var m2 := SetChunk(m1, next, Read(m1, next), cut, true);
    var m3 := SetChunk(m2, a, cut, Read(m2, a + 4), true);
    SetUsed(m3, a, true)
  }

  lemma SplitReads(m: Memory, a: int, cut: int, next: int)
    requires a + HEADER <= cut && cut + HEADER <= next
    ensures var m' := SplitMemory(m, a, cut, next);
            && Header(m', a, cut, Read(m, a + 4), true)
            && Header(m', cut, next, a, false)
            && Header(m', next, Read(m, next), cut, true)
            && OnlyHeaders(m, m', a, cut, next)
  {
    var m1 := SetChunk(m, cut, next, a, false);
    SetChunkReads(m, cut, next, a, false);
    var m2 := SetChunk(m1, next, Read(m1, next), cut, true);
    SetChunkReads(m1, next, Read(m1, next), cut, true);
    assert Outside(next, cut) && Outside(a + 4, cut) && Outside(a + 4, next);
    assert Header(m2, cut, next, a, false);
    var m3 := SetChunk(m2, a, cut, Read(m2, a + 4), true);
    SetChunkReads(m2, a, cut, Read(m2, a + 4), true);
    assert Header(m3, cut, next, a, false) && Header(m3, next, Read(m, next), cut, true);
    assert SplitMemory(m, a, cut, next) == m3;
  }

  lemma SplitEncodes(m: Memory, m': Memory, bs: seq<Block>, k: int, cut: int)
    requires Encodes(m, bs) && Ordered(bs) && NoAdjacentFree(bs) && 0 <= k < |bs| - 1 && !bs[k].used
    requires var a, next := bs[k].addr, bs[k + 1].addr;
             && a + HEADER <= cut && cut + HEADER <= next
             && Header(m', a, cut, Read(m, a + 4), true)
             && Header(m', cut, next, a, false)
             && Header(m', next, Read(m, next), cut, true)
             && OnlyHeaders(m, m', a, cut, next)
    ensures Encodes(m', Insert(Mark(bs, k, true), k + 1, Block(cut, false)))
  {
    var m0, bs0 := SetUsed(m, bs[k].addr, true), Mark(bs, k, true);
    MarkEncodes(m, bs, k, true);
    MarkKeeps(bs, k, true);
    assert HeaderIs(m, bs, k) && HeaderIs(m, bs, k + 1);
    SplitHeaders(m, m', bs, k, cut);
    assert OnlyHeaders(m0, m', bs[k].addr, cut, bs[k + 1].addr);
    InsertEncodes(m0, m', bs0, k, Block(cut, false));
  }

  lemma SplitHeaders(m: Memory, m': Memory, bs: seq<Block>, k: int, cut: int)
    requires NoAdjacentFree(bs) && 0 <= k < |bs| - 1 && !bs[k].used
    requires HeaderIs(m, bs, k) && HeaderIs(m, bs, k + 1)
    requires var a, next := bs[k].addr, bs[k + 1].addr;
             && Header(m', a, cut, Read(m, a + 4), true)
             && Header(m', cut, next, a, false)
             && Header(m', next, Read(m, next), cut, true)
    ensures var r := Insert(Mark(bs, k, true), k + 1, Block(cut, false));
            HeaderIs(m', r, k) && HeaderIs(m', r, k + 1) && HeaderIs(m', r, k + 2)
  {
    var r := Insert(Mark(bs, k, true), k + 1, Block(cut, false));
    assert Apart(bs, k);
    assert r[k] == Block(bs[k].addr, true) && r[k + 1] == Block(cut, false) && r[k + 2] == bs[k + 1];
    assert r[Pred(|r|, k)].addr == bs[Pred(|bs|, k)].addr;
    assert r[Succ(|r|, k + 2)].addr == bs[Succ(|bs|, k + 1)].addr;
  }

  /** set_next, set_prev and erase of one merge: the chunk at `a` takes over the one at `dropped`. */
  function MergeMemory(m: Memory, a: int, dropped: int, next: int): Memory {
    Erase(SetPrev(SetNext(m, a, next), next, a), dropped)
  }

  lemma MergeReads(m: Memory, a: int, dropped: int, next: int)
    requires a + HEADER <= dropped && dropped + HEADER <= next
    ensures var m' := MergeMemory(m, a, dropped, next);
            Merged(m, m', a, next) && OnlyHeaders(m, m', a, dropped, next)
  {}

  /** What the words of the two remaining headers say after the merge. */
  ghost predicate Merged(m: Memory, m': Memory, a: int, next: int) {
    && Header(m', a, next, Read(m, a + 4), IsUsed(m, a))
    && Read(m', next) == Read(m, next) && Read(m', next + 4) == a && Read(m', next + 8) == Read(m, next + 8)
  }

  lemma MergeHeaders(m: Memory, m': Memory, bs: seq<Block>, j: int)
    requires 0 < j < |bs| - 1 && HeaderIs(m, bs, j - 1) && HeaderIs(m, bs, j + 1)
    requires Merged(m, m', bs[j - 1].addr, bs[j + 1].addr)
    ensures HeaderIs(m', Drop(bs, j), j - 1) && HeaderIs(m', Drop(bs, j), j)
  {
    var r := Drop(bs, j);
    assert r[Pred(|r|, j - 1)].addr == bs[Pred(|bs|, j - 1)].addr;
    assert r[Succ(|r|, j)].addr == bs[Succ(|bs|, j + 1)].addr;
  }

  lemma MergeEncodes(m: Memory, m': Memory, bs: seq<Block>, j: int)
    requires Encodes(m, bs) && Ordered(bs) && 0 < j < |bs| - 1
    requires Merged(m, m', bs[j - 1].addr, bs[j + 1].addr)
    requires OnlyHeaders(m, m', bs[j - 1].addr, bs[j].addr, bs[j + 1].addr)
    ensures Encodes(m', Drop(bs, j))
  {
    assert HeaderIs(m, bs, j - 1) && HeaderIs(m, bs, j + 1);
    MergeHeaders(m, m', bs, j);
    DropEncodes(m, m', bs, j);
  }

  /** set_next, set_prev, set_chunk of a realloc: a free chunk at `end` between `a` and `next`. */
  function ResizeMemory(m: Memory, a: int, end: int, next: int): Memory {
    SetChunk(SetPrev(SetNext(m, a, end), next, end), end, next, a, false)
  }

  ghost predicate Resized(m: Memory, m': Memory, a: int, end: int, next: int) {
    && Header(m', a, end, Read(m, a + 4), IsUsed(m, a))
    && Header(m', end, next, a, false)
    && Read(m', next) == Read(m, next) && Read(m', next + 4) == end && Read(m', next + 8) == Read(m, next + 8)
    && OnlyHeaders(m, m', a, end, next)
  }

  lemma ResizeReads(m: Memory, a: int, end: int, next: int)
    requires a + HEADER <= end && end + HEADER <= next
    ensures Resized(m, ResizeMemory(m, a, end, next), a, end, next)
  {
    SetChunkReads(SetPrev(SetNext(m, a, end), next, end), end, next, a, false);
  }

  lemma ResizeInsertHeaders(m: Memory, m': Memory, bs: seq<Block>, k: int, end: int)
    requires 0 <= k < |bs| - 1 && HeaderIs(m, bs, k) && HeaderIs(m, bs, k + 1)
    requires Resized(m, m', bs[k].addr, end, bs[k + 1].addr)
    ensures var r := Insert(bs, k + 1, Block(end, false));
            HeaderIs(m', r, k) && HeaderIs(m', r, k + 1) && HeaderIs(m', r, k + 2)
  {
    var r := Insert(bs, k + 1, Block(end, false));
    assert r[k] == bs[k] && r[k + 1] == Block(end, false) && r[k + 2] == bs[k + 1];
    assert r[Pred(|r|, k)].addr == bs[Pred(|bs|, k)].addr;
    assert r[Succ(|r|, k + 2)].addr == bs[Succ(|bs|, k + 1)].addr;
  }

  lemma ResizeInsertEncodes(m: Memory, m': Memory, bs: seq<Block>, k: int, end: int)
    requires Encodes(m, bs) && Ordered(bs) && 0 <= k < |bs| - 1
    requires bs[k].addr + HEADER <= end && end + HEADER <= bs[k + 1].addr
    requires Resized(m, m', bs[k].addr, end, bs[k + 1].addr)
    ensures Encodes(m', Insert(bs, k + 1, Block(end, false)))
  {
    assert HeaderIs(m, bs, k) && HeaderIs(m, bs, k + 1);
    ResizeInsertHeaders(m, m', bs, k, end);
    InsertEncodes(m, m', bs, k, Block(end, false));
  }

  lemma MoveHeaders(m: Memory, m': Memory, bs: seq<Block>, k: int, end: int)
    requires 0 <= k < |bs| - 2 && HeaderIs(m, bs, k) && HeaderIs(m, bs, k + 2)
    requires Resized(m, m', bs[k].addr, end, bs[k + 2].addr)
    ensures var r := bs[k + 1 := Block(end, false)];
            HeaderIs(m', r, k) && HeaderIs(m', r, k + 1) && HeaderIs(m', r, k + 2)
  {}

  lemma MoveEncodes(m: Memory, m': Memory, bs: seq<Block>, k: int, end: int)
    requires Encodes(m, bs) && Ordered(bs) && 0 <= k < |bs| - 2
    requires bs[k].addr + HEADER <= end && end + HEADER <= bs[k + 2].addr
    requires Resized(m, m', bs[k].addr, end, bs[k + 2].addr)
    ensures Encodes(m', bs[k + 1 := Block(end, false)])
  {
    var r := bs[k + 1 := Block(end, false)];
    assert HeaderIs(m, bs, k) && HeaderIs(m, bs, k + 2);
    MoveHeaders(m, m', bs, k, end);
    forall j | 0 <= j < |r| && (j < k || j > k + 2) ensures HeaderIs(m', r, j) {
      OrderOf(bs, j, k);
      OrderOf(bs, j, k + 2);
      HeaderKept(m, m', bs, j, r, j, bs[k].addr, end, bs[k + 2].addr);
    }
  }

  // ---------- data ----------

  /** Every data word of a live block, other than the block whose header is at `except`, is as it was. */
  ghost predicate DataKept(m: Memory, m': Memory, bs: seq<Block>, except: int) {
    forall a, e, x :: Live(bs, a, e) && a != except && a + HEADER <= x < e ==> Read(m', x) == Read(m, x)
  }

  /** The header at `c` lies outside the data of every live block but the one at `except`. */
  ghost predicate Clear(bs: seq<Block>, c: int, except: int) {
    forall x, e :: Live(bs, x, e) && x != except ==> c <= x || e <= c
  }

  lemma ChunkClear(bs: seq<Block>, j: int, except: int)
    requires Ordered(bs) && 0 <= j < |bs|
    ensures Clear(bs, bs[j].addr, except)
  {
    forall x, e | Live(bs, x, e) ensures bs[j].addr <= x || e <= bs[j].addr {
      var i :| LiveAt(bs, i, x, e);
      OrderOf(bs, i, j);
      OrderOf(bs, i + 1, j);
    }
  }

  /** Any place inside chunk `k` is clear of every other live block. */
  lemma InsideClear(bs: seq<Block>, k: int, c: int)
    requires Ordered(bs) && 0 <= k < |bs| - 1 && bs[k].addr <= c <= bs[k + 1].addr
    ensures Clear(bs, c, bs[k].addr)
  {
    forall x, e | Live(bs, x, e) && x != bs[k].addr ensures c <= x || e <= c {
      ChunkClear(bs, k, bs[k].addr);
      ChunkClear(bs, k + 1, bs[k].addr);
      var i :| LiveAt(bs, i, x, e);
      assert i != k;
      OrderOf(bs, i, k + 1);
      OrderOf(bs, i + 1, k);
    }
  }

  lemma HeadersKeepData(m: Memory, m': Memory, bs: seq<Block>, a: int, b: int, c: int, except: int)
    requires OnlyHeaders(m, m', a, b, c) && Clear(bs, a, except) && Clear(bs, b, except) && Clear(bs, c, except)
    ensures DataKept(m, m', bs, except)
  {}

  /** A caller may write anything into its own blocks. */
  lemma UserWriteKeeps(m: Memory, bs: seq<Block>, a: int, e: int, x: int, w: int)
    requires Encodes(m, bs) && Ordered(bs) && InArea(bs) && Live(bs, a, e) && a + HEADER <= x < e && x % 4 == 0
    ensures Encodes(m[x := w], bs)
  {
    var k :| LiveAt(bs, k, a, e);
    var m' := m[x := w];
    forall i | 0 <= i < |bs| ensures HeaderIs(m', bs, i) {
      assert HeaderIs(m, bs, i) && Placed(bs[i]);
      OrderOf(bs, i, k);
      OrderOf(bs, i, k + 1);
    }
  }

  lemma ReadLinks(m: Memory, bs: seq<Block>, i: int)
    requires Encodes(m, bs) && 0 <= i < |bs|
    ensures Read(m, bs[i].addr) == bs[Succ(|bs|, i)].addr && Read(m, bs[i].addr + 4) == bs[Pred(|bs|, i)].addr
    ensures IsUsed(m, bs[i].addr) == bs[i].used
  {
    assert HeaderIs(m, bs, i);
  }

  lemma ReadHeader(m: Memory, bs: seq<Block>, i: int)
    requires Encodes(m, bs) && WellFormed(bs) && 0 <= i < |bs|
    ensures Header(m, bs[i].addr, bs[Succ(|bs|, i)].addr, bs[Pred(|bs|, i)].addr, bs[i].used)
    ensures IsUsed(m, bs[i].addr) == bs[i].used && CheckSum(m, bs[i].addr)
    ensures i < |bs| - 1 ==> GetSize(m, bs[i].addr) == Size(bs, i)
  {
    assert HeaderIs(m, bs, i) && Placed(bs[i]) && Placed(bs[Succ(|bs|, i)]);
    OrderOf(bs, i, Succ(|bs|, i));
  }

  /** The chunk reached from chunk `c` in `d` steps round the ring. */
  function RingAt(n: nat, c: int, d: int): (i: int)
    requires 0 <= c < n && 0 <= d <= n
    ensures 0 <= i < n
  {
    if c + d < n then c + d else c + d - n
  }

  lemma RingStep(bs: seq<Block>, c: int, d: int, left: nat, size: int)
    requires 0 <= c < |bs| && 0 <= d < |bs| && d + left == |bs| && !Fits(bs, RingAt(|bs|, c, d), size)
    ensures var k := Succ(|bs|, RingAt(|bs|, c, d));
            && k == RingAt(|bs|, c, d + 1) && (k == c <==> left == 1)
            && Search(bs, RingAt(|bs|, c, d), left, size) == Search(bs, k, left - 1, size)
  {}

  lemma FitTest(m: Memory, bs: seq<Block>, k: int, size: int)
    requires Encodes(m, bs) && WellFormed(bs) && 0 <= k < |bs| && 0 < size <= INT_MAX
    ensures !IsUsed(m, bs[k].addr) && Int32(GetSize(m, bs[k].addr)) >= size <==> Fits(bs, k, size)
  {
    ReadHeader(m, bs, k);
  }

  lemma MallocTakes(h: Heap, k: int, size: int)
    requires Valid(h) && 0 < size <= INT_MAX
    requires k == Search(h.blocks, IndexOf(h.blocks, h.current), |h.blocks|, size)
    ensures k == |h.blocks| ==> AfterMalloc(h, size) == h && MallocResult(h, size) == 0
    ensures k < |h.blocks| ==> k + 1 < |Take(h.blocks, k, size)| && WellFormed(Take(h.blocks, k, size))
    ensures k < |h.blocks| ==>
              && AfterMalloc(h, size) == Heap(Take(h.blocks, k, size), Take(h.blocks, k, size)[k + 1].addr)
              && MallocResult(h, size) == h.blocks[k].addr + HEADER
  {
    if k < |h.blocks| {
      TakeKeeps(h.blocks, k, size);
      TakeArea(h.blocks, k, size);
    }
  }

  /** The split arithmetic of malloc stays inside 32 bits. */
  lemma CutFits(bs: seq<Block>, k: int, size: int)
    requires InArea(bs) && 0 <= k < |bs| - 1 && 0 < size <= Size(bs, k)
    ensures Uint32(bs[k].addr + HEADER + (Aligned(size + HEADER) - HEADER)) == Cut(bs, k, size)
    ensures Uint32(Cut(bs, k, size) + HEADER + 4) == Cut(bs, k, size) + HEADER + 4
  {
    assert Placed(bs[k]) && Placed(bs[k + 1]);
  }

  /** The header writes of a successful malloc. */
  function TakeMemory(m: Memory, bs: seq<Block>, k: int, size: int): Memory
    requires 0 <= k < |bs| - 1 && 0 <= size
  {
    if Splits(bs, k, size) then SplitMemory(m, bs[k].addr, Cut(bs, k, size), bs[k + 1].addr)
    else SetUsed(m, bs[k].addr, true)
  }

  lemma TakeWrites(m: Memory, bs: seq<Block>, k: int, size: int)
    requires Encodes(m, bs) && WellFormed(bs) && 0 <= k < |bs| - 1 && !bs[k].used && 0 < size <= Size(bs, k)
    ensures Encodes(TakeMemory(m, bs, k, size), Take(bs, k, size))
    ensures DataKept(m, TakeMemory(m, bs, k, size), bs, -1)
  {
    var a, cut, next := bs[k].addr, Cut(bs, k, size), bs[k + 1].addr;
    var m' := TakeMemory(m, bs, k, size);
    MarkEncodes(m, bs, k, true);
    if Splits(bs, k, size) {
      SplitReads(m, a, cut, next);
      SplitEncodes(m, m', bs, k, cut);
    }
    TakeKeepsData(m, m', bs, k, cut);
  }

  /** All that a successful malloc does, on values. */
  lemma MallocDone(m: Memory, h: Heap, k: int, size: int)
    requires Valid(h) && Encodes(m, h.blocks) && 0 < size <= INT_MAX
    requires k == Search(h.blocks, IndexOf(h.blocks, h.current), |h.blocks|, size) && k < |h.blocks|
    ensures var r := AfterMalloc(h, size); var m' := TakeMemory(m, h.blocks, k, size);
            && Valid(r) && Encodes(m', r.blocks) && DataKept(m, m', h.blocks, -1)
            && r.current == Read(m', h.blocks[k].addr) && Read(m, h.blocks[k].addr) == h.blocks[k + 1].addr
            && MallocResult(h, size) == h.blocks[k].addr + HEADER
  {
    MallocTakes(h, k, size);
    TakeWrites(m, h.blocks, k, size);
    ReadHeader(m, h.blocks, k);
    ReadHeader(TakeMemory(m, h.blocks, k, size), Take(h.blocks, k, size), k);
  }

  lemma TakeKeepsData(m: Memory, m': Memory, bs: seq<Block>, k: int, cut: int)
    requires Ordered(bs) && 0 <= k < |bs| - 1 && !bs[k].used
    requires OnlyHeaders(m, m', bs[k].addr, bs[k].addr, bs[k].addr)
             || (bs[k].addr <= cut <= bs[k + 1].addr && OnlyHeaders(m, m', bs[k].addr, cut, bs[k + 1].addr))
    ensures DataKept(m, m', bs, -1)
  {
    forall x, e | Live(bs, x, e) ensures x != bs[k].addr {
      var i :| LiveAt(bs, i, x, e);
      OrderOf(bs, i, k);
    }
    ChunkClear(bs, k, -1);
    ChunkClear(bs, k + 1, -1);
    if OnlyHeaders(m, m', bs[k].addr, bs[k].addr, bs[k].addr) {
      HeadersKeepData(m, m', bs, bs[k].addr, bs[k].addr, bs[k].addr, -1);
    } else {
      InsideClear(bs, k, cut);
      HeadersKeepData(m, m', bs, bs[k].addr, cut, bs[k + 1].addr, -1);
    }
  }

  // ---------- free, on values ----------

  function MergeNextMemory(m: Memory, bs: seq<Block>, k: int): Memory
    requires 0 <= k < |bs| - 1 && bs[|bs| - 1].used
  {
    var m1 := SetUsed(m, bs[k].addr, false);
    if bs[k + 1].used then m1 else MergeMemory(m1, bs[k].addr, bs[k + 1].addr, bs[k + 2].addr)
  }

  function MergePrevMemory(m: Memory, bs: seq<Block>, k: int): Memory
    requires 0 <= k < |bs| - 1
  {
    if k == 0 || bs[k - 1].used then m else MergeMemory(m, bs[k - 1].addr, bs[k].addr, bs[k + 1].addr)
  }

  lemma MergeNextWrites(m: Memory, bs: seq<Block>, k: int)
    requires Encodes(m, bs) && Ordered(bs) && 0 <= k < |bs| - 1 && bs[|bs| - 1].used
    ensures Encodes(MergeNextMemory(m, bs, k), MergeNext(bs, k))
  {
    var a, m1 := Mark(bs, k, false), SetUsed(m, bs[k].addr, false);
    MarkEncodes(m, bs, k, false);
    MarkKeeps(bs, k, false);
    if !bs[k + 1].used {
      OrderOf(bs, k, k + 1);
      OrderOf(bs, k + 1, k + 2);
      MergeReads(m1, bs[k].addr, bs[k + 1].addr, bs[k + 2].addr);
      MergeEncodes(m1, MergeNextMemory(m, bs, k), a, k + 1);
    }
  }

  lemma MergePrevWrites(m: Memory, bs: seq<Block>, k: int)
    requires Encodes(m, bs) && Ordered(bs) && 0 <= k < |bs| - 1
    ensures Encodes(MergePrevMemory(m, bs, k), MergePrev(bs, k))
  {
    if k > 0 && !bs[k - 1].used {
      OrderOf(bs, k - 1, k);
      OrderOf(bs, k, k + 1);
      MergeReads(m, bs[k - 1].addr, bs[k].addr, bs[k + 1].addr);
      MergeEncodes(m, MergePrevMemory(m, bs, k), bs, k);
    }
  }

  lemma MergeNextData(m: Memory, bs: seq<Block>, k: int)
    requires Ordered(bs) && 0 <= k < |bs| - 1 && bs[|bs| - 1].used
    ensures DataKept(m, MergeNextMemory(m, bs, k), bs, bs[k].addr)
  {
    var a, m1 := bs[k].addr, SetUsed(m, bs[k].addr, false);
    ChunkClear(bs, k, a);
    assert OnlyHeaders(m, m1, a, a, a);
    HeadersKeepData(m, m1, bs, a, a, a, a);
    if !bs[k + 1].used {
      OrderOf(bs, k, k + 1);
      OrderOf(bs, k + 1, k + 2);
      MergeReads(m1, a, bs[k + 1].addr, bs[k + 2].addr);
      ChunkClear(bs, k + 1, a);
      ChunkClear(bs, k + 2, a);
      HeadersKeepData(m1, MergeNextMemory(m, bs, k), bs, a, bs[k + 1].addr, bs[k + 2].addr, a);
    }
  }

  lemma MergePrevData(m: Memory, bs: seq<Block>, k: int, except: int)
    requires Ordered(bs) && 0 <= k < |bs| - 1
    ensures DataKept(m, MergePrevMemory(m, bs, k), bs, except)
  {
    if k > 0 && !bs[k - 1].used {
      OrderOf(bs, k - 1, k);
      OrderOf(bs, k, k + 1);
      MergeReads(m, bs[k - 1].addr, bs[k].addr, bs[k + 1].addr);
      ChunkClear(bs, k - 1, except);
      ChunkClear(bs, k, except);
      ChunkClear(bs, k + 1, except);
      HeadersKeepData(m, MergePrevMemory(m, bs, k), bs, bs[k - 1].addr, bs[k].addr, bs[k + 1].addr, except);
    }
  }

  function FreeMemory(m: Memory, bs: seq<Block>, k: int): Memory
    requires 0 <= k < |bs| - 1 && bs[|bs| - 1].used
  {
    MergeNextRest(bs, k);
    MergePrevMemory(MergeNextMemory(m, bs, k), MergeNext(bs, k), k)
  }

  lemma MergeNextLive(bs: seq<Block>, k: int, a: int, e: int)
    requires WellFormed(bs) && 0 <= k < |bs| - 1 && bs[k].used && Live(bs, a, e) && a != bs[k].addr
    ensures Live(MergeNext(bs, k), a, e)
  {
    UnmarkLive(bs, k, a, e);
    if !bs[k + 1].used {
      DropLive(Mark(bs, k, false), k + 1, a, e);
    }
  }

  lemma FreeData(m: Memory, bs: seq<Block>, k: int)
    requires WellFormed(bs) && 0 <= k < |bs| - 1 && bs[k].used
    ensures DataKept(m, FreeMemory(m, bs, k), bs, bs[k].addr)
  {
    MergeNextRest(bs, k);
    var m1, b := MergeNextMemory(m, bs, k), MergeNext(bs, k);
    MergeNextKeeps(bs, k);
    MergeNextData(m, bs, k);
    MergePrevData(m1, b, k, bs[k].addr);
    forall a, e, x | Live(bs, a, e) && a != bs[k].addr && a + HEADER <= x < e
      ensures Read(FreeMemory(m, bs, k), x) == Read(m, x)
    {
      MergeNextLive(bs, k, a, e);
    }
  }

  lemma FreeWrites(m: Memory, bs: seq<Block>, k: int)
    requires Encodes(m, bs) && WellFormed(bs) && 0 <= k < |bs| - 1 && bs[k].used
    ensures Encodes(FreeMemory(m, bs, k), Free(bs, k))
  {
    MergeNextRest(bs, k);
    MergeNextKeeps(bs, k);
    MergeNextWrites(m, bs, k);
    MergePrevWrites(MergeNextMemory(m, bs, k), MergeNext(bs, k), k);
  }

  /** All that free does, on values. */
  lemma FreeDone(m: Memory, h: Heap, p: int, k: int)
    requires Valid(h) && Encodes(m, h.blocks) && p != 0 && IsBlock(h, p)
    requires 0 <= k < |h.blocks| - 1 && h.blocks[k].used && k == IndexOf(h.blocks, p - HEADER)
    ensures Valid(AfterFree(h, p))
    ensures Encodes(FreeMemory(m, h.blocks, k), AfterFree(h, p).blocks)
    ensures DataKept(m, FreeMemory(m, h.blocks, k), h.blocks, p - HEADER)
  {
    FreeStep(h, p);
    FreeWrites(m, h.blocks, k);
    FreeData(m, h.blocks, k);
  }

  // ---------- realloc in place, on values ----------

  /** Some(m') when the block stays: the memory after the header writes. */
  function InPlaceMemory(m: Memory, bs: seq<Block>, k: int, size: int): (r: Memory)
    requires 0 <= k < |bs| - 1 && 0 <= size && bs[|bs| - 1].used
  {
    if Resize(bs, k, size) == None || TooSmallToCut(bs, k, size) then m
    else ResizeMemory(m, bs[k].addr, NewEnd(bs, k, size), if bs[k + 1].used then bs[k + 1].addr else bs[k + 2].addr)
  }

  lemma ResizeRoom(bs: seq<Block>, k: int, size: int)
    requires WellFormed(bs) && 0 <= k < |bs| - 1 && 0 <= size
    requires Resize(bs, k, size).Some? && !TooSmallToCut(bs, k, size)
    ensures bs[k].addr + HEADER <= NewEnd(bs, k, size)
    ensures NewEnd(bs, k, size) + HEADER <= if bs[k + 1].used then bs[k + 1].addr else bs[k + 2].addr
    ensures bs[k + 1].used ==> Resize(bs, k, size) == Some(Insert(bs, k + 1, Block(NewEnd(bs, k, size), false)))
    ensures !bs[k + 1].used ==> Resize(bs, k, size) == Some(bs[k + 1 := Block(NewEnd(bs, k, size), false)])
  {
    OrderOf(bs, k, k + 1);
    if !bs[k + 1].used { OrderOf(bs, k + 1, k + 2); }
  }

  lemma EndFits(bs: seq<Block>, k: int, size: int)
    requires WellFormed(bs) && 0 <= k < |bs| - 1 && 0 <= size
    requires Resize(bs, k, size).Some? && !TooSmallToCut(bs, k, size)
    ensures Uint32(bs[k].addr + HEADER + Aligned(size)) == NewEnd(bs, k, size)
  {
    ResizeRoom(bs, k, size);
    assert Placed(bs[k]) && Placed(bs[if bs[k + 1].used then k + 1 else k + 2]);
  }

  lemma ResizeWrites(m: Memory, bs: seq<Block>, k: int, size: int)
    requires Encodes(m, bs) && WellFormed(bs) && 0 <= k < |bs| - 1 && 0 <= size && Resize(bs, k, size).Some?
    ensures Encodes(InPlaceMemory(m, bs, k, size), Resize(bs, k, size).value)
  {
    var a, end, m' := bs[k].addr, NewEnd(bs, k, size), InPlaceMemory(m, bs, k, size);
    if !TooSmallToCut(bs, k, size) {
      ResizeRoom(bs, k, size);
      if bs[k + 1].used {
        ResizeReads(m, a, end, bs[k + 1].addr);
        ResizeInsertEncodes(m, m', bs, k, end);
      } else {
        ResizeReads(m, a, end, bs[k + 2].addr);
        MoveEncodes(m, m', bs, k, end);
      }
    }
  }

  /** No data of another block changes, nor the data of this block that stays inside it. */
  lemma ResizeData(m: Memory, bs: seq<Block>, k: int, size: int)
    requires WellFormed(bs) && 0 <= k < |bs| - 1 && bs[k].used && 0 <= size
    ensures DataKept(m, InPlaceMemory(m, bs, k, size), bs, bs[k].addr)
    ensures forall x :: bs[k].addr + HEADER <= x < bs[k + 1].addr && x < NewEnd(bs, k, size) ==>
              Read(InPlaceMemory(m, bs, k, size), x) == Read(m, x)
  {
    var a, end, m' := bs[k].addr, NewEnd(bs, k, size), InPlaceMemory(m, bs, k, size);
    if Resize(bs, k, size).Some? && !TooSmallToCut(bs, k, size) {
      ResizeRoom(bs, k, size);
      var n := if bs[k + 1].used then k + 1 else k + 2;
      ResizeReads(m, a, end, bs[n].addr);
      OrderOf(bs, k + 1, n);
      ChunkClear(bs, k, a);
      ChunkClear(bs, n, a);
      EndClear(bs, k, n, end);
      HeadersKeepData(m, m', bs, a, end, bs[n].addr, a);
    }
  }

  lemma EndClear(bs: seq<Block>, k: int, n: int, end: int)
    requires Ordered(bs) && 0 <= k < |bs| - 1 && bs[k].addr <= end
    requires 0 <= n < |bs| && end <= bs[n].addr && (n == k + 1 || (n == k + 2 && !bs[k + 1].used))
    ensures Clear(bs, end, bs[k].addr)
  {
    forall x, e | Live(bs, x, e) && x != bs[k].addr ensures end <= x || e <= end {
      var i :| LiveAt(bs, i, x, e);
      OrderOf(bs, i, n);
      OrderOf(bs, i + 1, k);
    }
  }

  lemma ResizeDone(m: Memory, h: Heap, p: int, size: int, k: int)
    requires Valid(h) && Encodes(m, h.blocks) && IsBlock(h, p) && k == IndexOf(h.blocks, p - HEADER)
    requires ResizesInPlace(h, p, size)
    ensures Valid(AfterResize(h, p, size))
    ensures 0 <= k < |h.blocks| - 1 && Encodes(InPlaceMemory(m, h.blocks, k, size), AfterResize(h, p, size).blocks)
  {
    BlockIndex(h, p);
    ResizeStep(h, p, size);
    ResizeWrites(m, h.blocks, k, size);
  }

  lemma LiveEnd(bs: seq<Block>, k: int)
    requires Ordered(bs) && 0 <= k < |bs| - 1
    ensures forall e :: Live(bs, bs[k].addr, e) ==> e == bs[k + 1].addr
  {
    forall e | Live(bs, bs[k].addr, e) ensures e == bs[k + 1].addr {
      var i :| LiveAt(bs, i, bs[k].addr, e);
      IndexIsUnique(bs, i, k);
    }
  }

  class Allocator {
    const startmem: int
    const endmem: int
    var current: int
    var nMalloc: int
    var nFree: int
    var mem: Memory
    ghost var blocks: seq<Block>

    ghost function Abs(): Heap
      reads this
    {
      Heap(blocks, current)
    }

    ghost predicate Consistent()
      reads this
    {
      Valid(Abs()) && Encodes(mem, blocks)
    }

    constructor (startmem: int, endmem: int, current: int, mem: Memory, ghost blocks: seq<Block>)
      ensures this.startmem == startmem && this.endmem == endmem && this.current == current
      ensures this.mem == mem && this.blocks == blocks && nMalloc == 0 && nFree == 0
    {
      this.startmem, this.endmem, this.current := startmem, endmem, current;
      this.mem, this.blocks := mem, blocks;
      nMalloc, nFree := 0, 0;
    }

    /** The malloc loop finds the chunk that Search finds and leaves the heap alone. */
    method Find(size: int) returns (found: bool, chunk: int, ghost k: int)
      requires Consistent() && 0 < size <= INT_MAX
      ensures k == Search(blocks, IndexOf(blocks, current), |blocks|, size)
      ensures found == (k < |blocks|) && (found ==> chunk == blocks[k].addr)
    {
      ghost var bs, c, d := blocks, IndexOf(blocks, current), 0;
      ghost var left := |bs|;
      ghost var goal := Search(bs, c, |bs|, size);
      chunk, k := current, c;
      while true
        invariant 0 <= d < |bs| && d + left == |bs| && k == RingAt(|bs|, c, d) && chunk == bs[k].addr
        invariant goal == Search(bs, k, left, size)
        decreases left
      {
        ReadHeader(mem, bs, k);
        FitTest(mem, bs, k, size);
        if !IsUsed(mem, chunk) && Int32(GetSize(mem, chunk)) >= size {
          return true, chunk, k;
        }
        RingStep(bs, c, d, left, size);
        chunk, k, d, left := Read(mem, chunk), Succ(|bs|, k), d + 1, left - 1;
        ReadHeader(mem, bs, k);
        if !CheckSum(mem, chunk) {
          assert false;
        }
        if chunk == current {
          IndexIsUnique(bs, k, c);
          break;
        }
      }
      return false, chunk, |bs|;
    }

    method Malloc(size: int) returns (p: int)
      requires Consistent() && 0 <= size < TWO32
      modifies `mem, `current, `blocks, `nMalloc
      ensures Consistent()
      ensures Abs() == AfterMalloc(old(Abs()), size) && p == MallocResult(old(Abs()), size)
      ensures p == 0 <==> size == 0 || size > 0x7FFF_FFFF ||
                          forall j :: 0 <= j < |old(blocks)| - 1 ==> !Suits(old(blocks), j, size)
      ensures p != 0 ==> Live(blocks, p - 12, current) && size <= current - p <= size + 30
      ensures DataKept(old(mem), mem, old(blocks), -1)
      ensures nMalloc == if p == 0 then old(nMalloc) else Uint32(old(nMalloc) + 1)
    {
      MallocExact(Abs(), size);
      if size == 0 || size > INT_MAX {
        return 0;
      }
      var found, chunk, k := Find(size);
      if !found {
        MallocTakes(Abs(), k, size);
        return 0;
      }
      p := Commit(chunk, k, size);
      nMalloc := Uint32(nMalloc + 1);
    }

    /** Take the chunk the search found, and move on to the next one. */
    method Commit(chunk: int, ghost k: int, size: int) returns (p: int)
      requires Consistent() && 0 < size <= INT_MAX && 0 <= k < |blocks| && chunk == blocks[k].addr
      requires k == Search(blocks, IndexOf(blocks, current), |blocks|, size)
      modifies `mem, `current, `blocks
      ensures Consistent()
      ensures Abs() == AfterMalloc(old(Abs()), size) && p == MallocResult(old(Abs()), size) && p != 0
      ensures Live(blocks, p - 12, current) && size <= current - p <= size + 30
      ensures DataKept(old(mem), mem, old(blocks), -1)
    {
      ghost var h := Abs();
      MallocDone(mem, h, k, size);
      Allocate(chunk, k, size);
      blocks := AfterMalloc(h, size).blocks;
      current := Read(mem, chunk);
      p := chunk + HEADER;
      ghost var end, was := MallocSound(h, size, 0, 0);
    }

    /** Mark the chunk used and, if the rest can hold a chunk, split it off. */
    method Allocate(chunk: int, ghost k: int, size: int)
      requires WellFormed(blocks) && 0 <= k < |blocks| - 1 && chunk == blocks[k].addr && 0 < size <= Size(blocks, k)
      requires Read(mem, chunk) == blocks[k + 1].addr
      modifies this`mem
      ensures mem == TakeMemory(old(mem), blocks, k, size)
    {
      CutFits(blocks, k, size);
      var next := Read(mem, chunk);
      var cut := Uint32(chunk + HEADER + (Aligned(size + HEADER) - HEADER));
      if Uint32(cut + HEADER + 4) <= next {
        mem := SetChunk(mem, cut, next, chunk, false);
        mem := SetChunk(mem, next, Read(mem, next), cut, true);
        mem := SetChunk(mem, chunk, cut, Read(mem, chunk + 4), true);
      }
      mem := SetUsed(mem, chunk, true);
    }

    method Free(p: int)
      requires Consistent() && (p == 0 || IsBlock(Abs(), p))
      modifies `mem, `current, `blocks, `nFree
      ensures Consistent() && Abs() == AfterFree(old(Abs()), p)
      ensures DataKept(old(mem), mem, old(blocks), p - HEADER)
      ensures nFree == if p == 0 then old(nFree) else Uint32(old(nFree) + 1)
    {
      if p == 0 {
        return;
      }
      Dispose(p);
      nFree := Uint32(nFree + 1);
    }

    method Dispose(p: int)
      requires Consistent() && p != 0 && IsBlock(Abs(), p)
      modifies `mem, `current, `blocks
      ensures Consistent() && Abs() == AfterFree(old(Abs()), p)
      ensures DataKept(old(mem), mem, old(blocks), p - HEADER)
    {
      ghost var h := Abs();
      BlockIndex(h, p);
      ghost var k := IndexOf(blocks, p - HEADER);
      FreeDone(mem, h, p, k);
      current := Release(p - HEADER, k);
      blocks := AfterFree(h, p).blocks;
    }

    /** All the header writes of free. */
    method Release(chunk: int, ghost k: int) returns (merged: int)
      requires Encodes(mem, blocks) && WellFormed(blocks) && 0 <= k < |blocks| - 1 && blocks[k].used
      requires chunk == blocks[k].addr
      modifies `mem
      ensures mem == FreeMemory(old(mem), blocks, k)
      ensures merged == if k > 0 && !blocks[k - 1].used then blocks[k - 1].addr else chunk
    {
      ReadHeader(mem, blocks, k);
      if !CheckSum(mem, chunk) {
        assert false;
      }
      MergeNextWrites(mem, blocks, k);
      MergeNextKeeps(blocks, k);
      MergeNextRest(blocks, k);
      var next := MergeForward(chunk, k);
      merged := MergeBackward(chunk, next, MergeNext(blocks, k), k);
    }

    /** set_free, and take over the next chunk if it is free. */
    method MergeForward(chunk: int, ghost k: int) returns (next: int)
      requires Encodes(mem, blocks) && WellFormed(blocks) && 0 <= k < |blocks| - 1 && chunk == blocks[k].addr
      modifies `mem
      ensures mem == MergeNextMemory(old(mem), blocks, k)
      ensures next == if blocks[k + 1].used then blocks[k + 1].addr else blocks[k + 2].addr
    {
      ReadLinks(mem, blocks, k);
      ReadLinks(mem, blocks, k + 1);
      OrderOf(blocks, k, k + 1);
      mem := SetUsed(mem, chunk, false);
      next := Read(mem, chunk);
      if !IsUsed(mem, next) {
        var nextnext := Read(mem, next);
        mem := SetNext(mem, chunk, nextnext);
        mem := SetPrev(mem, nextnext, chunk);
        mem := Erase(mem, next);
        next := nextnext;
      }
    }

    /** Let the previous chunk take over this one if it is free; `bs` is the heap after the forward merge. */
    method MergeBackward(chunk: int, next: int, ghost bs: seq<Block>, ghost k: int) returns (merged: int)
      requires Encodes(mem, bs) && 0 <= k < |bs| - 1 && bs[|bs| - 1].used
      requires chunk == bs[k].addr && next == bs[k + 1].addr
      modifies `mem
      ensures mem == MergePrevMemory(old(mem), bs, k)
      ensures merged == if k > 0 && !bs[k - 1].used then bs[k - 1].addr else chunk
    {
      ReadLinks(mem, bs, k);
      ReadLinks(mem, bs, Pred(|bs|, k));
      var prev := Read(mem, chunk + 4);
      merged := chunk;
      if !IsUsed(mem, prev) {
        mem := SetNext(mem, prev, next);
        mem := SetPrev(mem, next, prev);
        mem := Erase(mem, chunk);
        merged := prev;
      }
    }

    /** realloc up to its relocating branch: true when the block was resized where it is. */
    method ReallocInPlace(p: int, size: int) returns (inPlace: bool)
      requires Consistent() && IsBlock(Abs(), p) && 0 <= size <= INT_MAX
      modifies `mem, `current, `blocks
      ensures Consistent() && inPlace == ResizesInPlace(old(Abs()), p, size)
      ensures Abs() == if inPlace then AfterResize(old(Abs()), p, size) else old(Abs())
      ensures DataKept(old(mem), mem, old(blocks), p - HEADER)
      ensures forall a, e, x :: Live(old(blocks), a, e) && a == p - HEADER && p <= x < e && x < p + Aligned(size) ==>
                Read(mem, x) == Read(old(mem), x)
    {
      ghost var h := Abs();
      BlockIndex(h, p);
      ghost var k := IndexOf(blocks, p - HEADER);
      ResizeData(mem, blocks, k, size);
      inPlace := ResizeHeaders(p - HEADER, size, k);
      if inPlace {
        ResizeDone(old(mem), h, p, size, k);
        blocks := AfterResize(h, p, size).blocks;
      }
      LiveEnd(h.blocks, k);
    }

    method ResizeHeaders(chunk: int, size: int, ghost k: int) returns (inPlace: bool)
      requires Encodes(mem, blocks) && WellFormed(blocks) && 0 <= k < |blocks| - 1
      requires chunk == blocks[k].addr && 0 <= size <= INT_MAX
      modifies `mem, `current
      ensures inPlace == Resize(blocks, k, size).Some?
      ensures mem == InPlaceMemory(old(mem), blocks, k, size)
      ensures current == if inPlace then MovedCurrent(blocks, k, size, old(current)) else old(current)
    {
      var size' := Aligned(size);
      ReadHeader(mem, blocks, k);
      ReadHeader(mem, blocks, k + 1);
      var next := Read(mem, chunk);
      var newChunk := Uint32(chunk + HEADER + size');
      if size' < GetSize(mem, chunk) {
        if size' + HEADER >= GetSize(mem, chunk) {
          return true;
        }
        if !IsUsed(mem, next) {
          if current == next {
            current := newChunk;
          }
          next := Read(mem, next);
        }
      } else if !IsUsed(mem, next) && GetSize(mem, next) >= size' - GetSize(mem, chunk) {
        if current == next {
          current := Read(mem, next);
        }
        next := Read(mem, next);
      } else {
        return false;
      }
      EndFits(blocks, k, size);
      LinkFree(chunk, newChunk, next);
      return true;
    }

    /** A free chunk at `newChunk` between `chunk` and `next`. */
    method LinkFree(chunk: int, newChunk: int, next: int)
      modifies `mem
      ensures mem == ResizeMemory(old(mem), chunk, newChunk, next)
    {
      mem := SetNext(mem, chunk, newChunk);
      mem := SetPrev(mem, next, newChunk);
      mem := SetChunk(mem, newChunk, next, chunk, false);
    }
  }
  // ---------- firstfit_new ----------

  const ALLOC_SIZE := 20

  function FirstChunk(start: int): int
    requires 0 <= start
  {
    Aligned(start + ALLOC_SIZE + HEADER) - HEADER
  }

  function Sentinel(start: int, size: int): int {
    ALIGN * ((start + size) / ALIGN) - HEADER
  }

  /** There is room for a chunk between the allocator's own header and the end sentinel. */
  predicate HasRoom(start: int, size: int)
    requires 0 <= start
  {
    Aligned(start + ALLOC_SIZE + HEADER) < ALIGN * ((start + size) / ALIGN)
  }

  /**
   Too small an area is refused. Otherwise the heap is one free chunk and the sentinel, which is a
   consistent heap exactly when there is room for both.
   */
  method New(m: Memory, start: int, size: int) returns (h: Allocator?)
    requires 0 <= start && 0 <= size && start + size < 0xFFFF_FFF0
    ensures h == null <==> size < 45
    ensures h != null ==> fresh(h) && h.Abs() == Fresh(FirstChunk(start), Sentinel(start, size))
    ensures h != null ==>
              var first, last := FirstChunk(start), Sentinel(start, size);
              && h.blocks == [Block(first, false), Block(last, true)] && h.current == first
              && start + 20 <= first < start + 36 && (first + 12) % 16 == 0
              && start + size - 28 < last <= start + size - 12 && (last + 12) % 16 == 0
              && (h.Consistent() <==> first + 12 <= last)
    ensures h != null ==> (h.Consistent() <==> HasRoom(start, size)) && DataAligned(h.blocks)
    ensures h != null ==> h.startmem == start && h.endmem == start + size && h.nMalloc == h.nFree == 0
  {
    if size < Aligned(ALLOC_SIZE + HEADER) + HEADER + 1 {
      return null;
    }
    var end := Uint32(size + start);
    var initial := Aligned(start + ALLOC_SIZE + HEADER) - HEADER;
    var heapEnd := ALIGN * (end / ALIGN) - HEADER;
    FreshPlaced(start, size);
    FreshBounds(start, size);
    h := Lay(m, start, end, initial, heapEnd);
  }

  /** Writes the first chunk and the sentinel. */
  method Lay(m: Memory, start: int, end: int, initial: int, heapEnd: int) returns (h: Allocator)
    ensures fresh(h) && h.Abs() == Fresh(initial, heapEnd)
    ensures h.Consistent() <==> Valid(Fresh(initial, heapEnd))
    ensures h.startmem == start && h.endmem == end && h.nMalloc == h.nFree == 0
  {
    var m1 := SetChunk(m, initial, heapEnd, heapEnd, false);
    var m2 := SetChunk(m1, heapEnd, initial, initial, true);
    h := new Allocator(start, end, initial, m2, Fresh(initial, heapEnd).blocks);
    FreshEncodes(m, initial, heapEnd);
    if Valid(Fresh(initial, heapEnd)) { assert Before(Fresh(initial, heapEnd).blocks, 0, 1); }
  }

  lemma HeaderSlot(q: int)
    ensures (ALIGN * q - HEADER) % ALIGN == ALIGN - HEADER
    ensures (ALIGN * q - HEADER) % 4 == 0
  {
    ShiftBy16(4, q - 1);
    ShiftBy4(0, 4 * q - 3);
  }

  lemma FreshBounds(start: int, size: int)
    requires 0 <= start && 0 <= size
    ensures var first, last := FirstChunk(start), Sentinel(start, size);
            && start + 20 <= first < start + 36 && (first + 12) % 16 == 0
            && start + size - 28 < last <= start + size - 12 && (last + 12) % 16 == 0
            && (HasRoom(start, size) <==> first + 12 <= last)
  {
    var q, r := Aligned(start + ALLOC_SIZE + HEADER) / ALIGN, (start + size) / ALIGN;
    assert FirstChunk(start) == ALIGN * q - HEADER && Sentinel(start, size) == ALIGN * r - HEADER;
    ShiftBy16(0, q);
    ShiftBy16(0, r);
  }

  lemma FreshPlaced(start: int, size: int)
    requires 0 <= start && 0 <= size && start + size < 0xFFFF_FFF0
    ensures DataAligned(Fresh(FirstChunk(start), Sentinel(start, size)).blocks)
    ensures Valid(Fresh(FirstChunk(start), Sentinel(start, size))) <==> HasRoom(start, size)
  {
    var first, last := FirstChunk(start), Sentinel(start, size);
    var q, r := Aligned(start + ALLOC_SIZE + HEADER) / ALIGN, (start + size) / ALIGN;
    assert first == ALIGN * q - HEADER && last == ALIGN * r - HEADER;
    HeaderSlot(q);
    HeaderSlot(r);
    assert HasRoom(start, size) <==> q < r;
    FreshValid(first, last, q, r);
  }

  lemma FreshValid(first: int, last: int, q: int, r: int)
    requires first == ALIGN * q - HEADER && last == ALIGN * r - HEADER && 0 <= first && last < TOP
    requires first % ALIGN == last % ALIGN == ALIGN - HEADER && first % 4 == last % 4 == 0
    ensures DataAligned(Fresh(first, last).blocks)
    ensures Valid(Fresh(first, last)) <==> q < r
  {
    var bs := Fresh(first, last).blocks;
    assert At16(bs[0]) && At16(bs[1]);
    if q < r {
      assert Placed(bs[0]) && Placed(bs[1]) && Before(bs, 0, 1) && bs[0].addr == first;
    } else {
      assert |bs| == 2 && !Before(bs, 0, 1);
    }
  }

  lemma FreshEncodes(m: Memory, first: int, end: int)
    ensures var m1 := SetChunk(m, first, end, end, false);
            first + HEADER <= end ==> Encodes(SetChunk(m1, end, first, first, true), Fresh(first, end).blocks)
  {
    var m1 := SetChunk(m, first, end, end, false);
    var m2 := SetChunk(m1, end, first, first, true);
    var bs := Fresh(first, end).blocks;
    SetChunkReads(m, first, end, end, false);
    SetChunkReads(m1, end, first, first, true);
    if first + HEADER <= end {
      assert HeaderIs(m2, bs, 0) && HeaderIs(m2, bs, 1);
    }
  }

  /** For a 16-aligned area, 48 bytes is the least that works, although 45 pass the size test. */
  lemma RoomFrom48(start: int, size: int)
    requires 0 <= start && start % ALIGN == 0 && 0 <= size
    ensures HasRoom(start, size) <==> size >= 48
  {
    var q := start / ALIGN;
    assert start + ALLOC_SIZE + HEADER == ALIGN * (q + 2);
    assert (start + size) / ALIGN == q + size / ALIGN;
  }
}
