/**
 The first-fit heap as a value: the chunks of one memory area in address order,
 and what malloc, free and an in-place realloc do to them.

 A chunk is a 12-byte header followed by its data; the data of a chunk ends where
 the header of the next chunk starts. The last chunk is the end sentinel, which is
 always in use and is never handed out.
 */
module FirstFitSpec {
  import opened Options

  const HEADER := 12
  const ALIGN := 16
  const INT_MAX := 0x7FFF_FFFF
  const TWO32 := 0x1_0000_0000

  // No chunk header lies at or above this address (see README, "Assumptions").
  const TOP := 0xFFFF_FFD8

  datatype Block = Block(addr: int, used: bool)

  datatype Heap = Heap(blocks: seq<Block>, current: int)

  function Aligned(x: int): (r: int)
    requires 0 <= x
    ensures x <= r < x + ALIGN && r % ALIGN == 0
  {
    if x % ALIGN == 0 then x else ALIGN * (x / ALIGN) + ALIGN
  }

  predicate Before(bs: seq<Block>, i: int, j: int)
    requires 0 <= i < j < |bs|
  {
    bs[i].addr + HEADER <= bs[j].addr
  }

  /** The chunks lie in address order and their headers do not overlap. */
  ghost predicate Ordered(bs: seq<Block>) {
    forall i, j :: 0 <= i < j < |bs| ==> Before(bs, i, j)
  }

  predicate Apart(bs: seq<Block>, i: int)
    requires 0 <= i < |bs| - 1
  {
    bs[i].used || bs[i + 1].used
  }

  ghost predicate NoAdjacentFree(bs: seq<Block>) {
    forall i :: 0 <= i < |bs| - 1 ==> Apart(bs, i)
  }

  predicate Placed(b: Block) {
    0 <= b.addr < TOP && b.addr % 4 == 0
  }

  ghost predicate InArea(bs: seq<Block>) {
    forall i :: 0 <= i < |bs| ==> Placed(bs[i])
  }

  /** What every operation keeps. */
  ghost predicate WellFormed(bs: seq<Block>) {
    && |bs| >= 2
    && Ordered(bs)
    && NoAdjacentFree(bs)
    && InArea(bs)
    && bs[|bs| - 1].used
  }

  ghost predicate Valid(h: Heap) {
    && WellFormed(h.blocks)
    && exists i :: 0 <= i < |h.blocks| && h.blocks[i].addr == h.current
  }

  predicate At16(b: Block) {
    b.addr % ALIGN == ALIGN - HEADER
  }

  /** Every header at 16n - 12, so that every data pointer is 16-aligned. */
  ghost predicate DataAligned(bs: seq<Block>) {
    forall i :: 0 <= i < |bs| ==> At16(bs[i])
  }

  function Size(bs: seq<Block>, i: int): int
    requires 0 <= i < |bs| - 1
  {
    bs[i + 1].addr - bs[i].addr - HEADER
  }

  function Succ(n: nat, i: int): (j: int)
    requires 0 <= i < n
    ensures 0 <= j < n
  {
    if i + 1 == n then 0 else i + 1
  }

  function Pred(n: nat, i: int): (j: int)
    requires 0 <= i < n
    ensures 0 <= j < n
  {
    if i == 0 then n - 1 else i - 1
  }

  predicate Fits(bs: seq<Block>, i: int, size: int)
    requires 0 <= i < |bs|
  {
    i < |bs| - 1 && !bs[i].used && size <= Size(bs, i) <= INT_MAX
  }

  /** The first of `steps` chunks, walking the ring from `i`, that fits; |bs| if none. */
  function Search(bs: seq<Block>, i: int, steps: nat, size: int): (k: int)
    requires 0 <= i < |bs|
    ensures 0 <= k <= |bs|
    ensures k < |bs| ==> Fits(bs, k, size)
    decreases steps
  {
    if steps == 0 then |bs|
    else if Fits(bs, i, size) then i
    else Search(bs, Succ(|bs|, i), steps - 1, size)
  }

  function Cut(bs: seq<Block>, k: int, size: int): int
    requires 0 <= k < |bs| && 0 <= size
  {
    bs[k].addr + Aligned(size + HEADER)
  }

  predicate Splits(bs: seq<Block>, k: int, size: int)
    requires 0 <= k < |bs| - 1 && 0 <= size
  {
    Cut(bs, k, size) + HEADER + 4 <= bs[k + 1].addr
  }

  function Mark(bs: seq<Block>, k: int, used: bool): (r: seq<Block>)
    requires 0 <= k < |bs|
    ensures |r| == |bs|
    ensures forall i {:trigger r[i]} :: 0 <= i < |bs| ==> r[i] == if i == k then Block(bs[k].addr, used) else bs[i]
  {
    bs[k := Block(bs[k].addr, used)]
  }

  function Insert(bs: seq<Block>, k: int, b: Block): (r: seq<Block>)
    requires 0 <= k <= |bs|
    ensures |r| == |bs| + 1
    ensures forall i {:trigger r[i]} :: 0 <= i < |r| ==>
              r[i] == if i < k then bs[i] else if i == k then b else bs[i - 1]
  {
    bs[..k] + [b] + bs[k..]
  }

  function Drop(bs: seq<Block>, k: int): (r: seq<Block>)
    requires 0 <= k < |bs|
    ensures |r| == |bs| - 1
    ensures forall i {:trigger r[i]} :: 0 <= i < |r| ==> r[i] == if i < k then bs[i] else bs[i + 1]
  {
    bs[..k] + bs[k + 1..]
  }

  function Take(bs: seq<Block>, k: int, size: int): (r: seq<Block>)
    requires 0 <= k < |bs| - 1 && 0 <= size
  {
    if Splits(bs, k, size) then Insert(Mark(bs, k, true), k + 1, Block(Cut(bs, k, size), false))
    else Mark(bs, k, true)
  }

  function Malloc(bs: seq<Block>, c: int, size: int): (r: Option<int>)
    requires 0 <= c < |bs|
  {
    if size <= 0 || size > INT_MAX then None
    else
      var k := Search(bs, c, |bs|, size);
      if k == |bs| then None else Some(k)
  }

  /** Chunk `k` freed and merged with the chunk after it, if that one is free. */
  function MergeNext(bs: seq<Block>, k: int): (r: seq<Block>)
    requires 0 <= k < |bs| - 1
  {
    var a := Mark(bs, k, false);
    if a[k + 1].used then a else Drop(a, k + 1)
  }

  function MergePrev(bs: seq<Block>, k: int): (r: seq<Block>)
    requires 0 <= k < |bs|
  {
    if k == 0 || bs[k - 1].used then bs else Drop(bs, k)
  }

  function Free(bs: seq<Block>, k: int): (r: seq<Block>)
    requires 0 <= k < |bs| - 1
  {
    MergePrev(MergeNext(bs, k), k)
  }

  /** The order of two chunks, whichever comes first. */
  lemma OrderOf(bs: seq<Block>, i: int, j: int)
    requires Ordered(bs) && 0 <= i < |bs| && 0 <= j < |bs|
    ensures i < j ==> bs[i].addr + HEADER <= bs[j].addr
    ensures j < i ==> bs[j].addr + HEADER <= bs[i].addr
  {
    assert i < j ==> Before(bs, i, j);
    assert j < i ==> Before(bs, j, i);
  }

  lemma IndexIsUnique(bs: seq<Block>, i: int, j: int)
    requires Ordered(bs) && 0 <= i < |bs| && 0 <= j < |bs| && bs[i].addr == bs[j].addr
    ensures i == j
  {
    OrderOf(bs, i, j);
  }

  lemma MarkKeeps(bs: seq<Block>, k: int, used: bool)
    requires 0 <= k < |bs|
    ensures Ordered(bs) ==> Ordered(Mark(bs, k, used))
    ensures InArea(bs) ==> InArea(Mark(bs, k, used))
    ensures NoAdjacentFree(bs) && used ==> NoAdjacentFree(Mark(bs, k, used))
  {
    var r := Mark(bs, k, used);
    forall i, j | 0 <= i < j < |r| ensures Before(r, i, j) == Before(bs, i, j) {}
    forall i | 0 <= i < |r| ensures Placed(r[i]) == Placed(bs[i]) {}
    forall i | 0 <= i < |r| - 1 && used ensures Apart(bs, i) ==> Apart(r, i) {}
  }

  lemma InsertKeeps(bs: seq<Block>, k: int, b: Block)
    requires 0 < k < |bs| && Ordered(bs) && InArea(bs) && NoAdjacentFree(bs)
    requires bs[k - 1].addr + HEADER <= b.addr && b.addr + HEADER <= bs[k].addr && b.addr % 4 == 0
    requires b.used || (bs[k - 1].used && bs[k].used)
    ensures Ordered(Insert(bs, k, b)) && InArea(Insert(bs, k, b)) && NoAdjacentFree(Insert(bs, k, b))
  {
    InsertOrdered(bs, k, b);
    var r := Insert(bs, k, b);
    assert Placed(bs[k]) && Placed(bs[k - 1]);
    forall i | 0 <= i < |r| ensures Placed(r[i]) {
      assert i != k ==> Placed(bs[if i < k then i else i - 1]);
    }
    forall i | 0 <= i < |r| - 1 ensures Apart(r, i) {
      if i < k - 1 { assert Apart(bs, i); } else if i > k { assert Apart(bs, i - 1); }
    }
  }

  lemma InsertOrdered(bs: seq<Block>, k: int, b: Block)
    requires 0 < k < |bs| && Ordered(bs)
    requires bs[k - 1].addr + HEADER <= b.addr && b.addr + HEADER <= bs[k].addr
    ensures Ordered(Insert(bs, k, b))
  {
    var r := Insert(bs, k, b);
    forall i, j | 0 <= i < j < |r| ensures Before(r, i, j) {
      if i == k {
        assert j - 1 > k ==> Before(bs, k, j - 1);
      } else if j == k {
        assert i < k - 1 ==> Before(bs, i, k - 1);
      } else {
        assert Before(bs, if i < k then i else i - 1, if j < k then j else j - 1);
      }
    }
  }

  lemma DropKeeps(bs: seq<Block>, k: int)
    requires 0 <= k < |bs|
    ensures Ordered(bs) ==> Ordered(Drop(bs, k))
    ensures InArea(bs) ==> InArea(Drop(bs, k))
  {
    var r := Drop(bs, k);
    if Ordered(bs) {
      forall i, j | 0 <= i < j < |r| ensures Before(r, i, j) {
        assert Before(bs, if i < k then i else i + 1, if j < k then j else j + 1);
      }
    }
    forall i | 0 <= i < |r| && InArea(bs) ensures Placed(r[i]) {
      assert Placed(bs[if i < k then i else i + 1]);
    }
  }

  lemma ShiftBy16(x: int, m: int)
    ensures (x + 16 * m) % 16 == x % 16
  {}

  lemma ShiftBy4(x: int, m: int)
    ensures (x + 4 * m) % 4 == x % 4
  {}

  lemma CutIsMultipleOf4(x: int, size: int)
    requires x % 4 == 0 && 0 <= size
    ensures (x + Aligned(size + HEADER)) % 4 == 0
    ensures (x + Aligned(size + HEADER)) % ALIGN == x % ALIGN
  {
    var m := Aligned(size + HEADER) / ALIGN;
    ShiftBy16(x, m);
    ShiftBy4(x, 4 * m);
  }

  lemma TakeKeeps(bs: seq<Block>, k: int, size: int)
    requires WellFormed(bs) && 0 <= k < |bs| - 1 && !bs[k].used && 0 < size <= Size(bs, k)
    ensures WellFormed(Take(bs, k, size))
  {
    MarkKeeps(bs, k, true);
    if Splits(bs, k, size) {
      assert Placed(bs[k]) && Apart(bs, k);
      CutIsMultipleOf4(bs[k].addr, size);
      InsertKeeps(Mark(bs, k, true), k + 1, Block(Cut(bs, k, size), false));
    }
  }

  lemma TakeKeepsAlignment(bs: seq<Block>, k: int, size: int)
    requires DataAligned(bs) && 0 <= k < |bs| - 1 && 0 < size && bs[k].addr % 4 == 0
    ensures DataAligned(Take(bs, k, size))
  {
    assert At16(bs[k]);
    CutIsMultipleOf4(bs[k].addr, size);
    var r := Take(bs, k, size);
    forall i | 0 <= i < |r| ensures At16(r[i]) {
      assert At16(bs[if i <= k then i else i - |r| + |bs|]);
    }
  }

  /** No two adjacent free chunks, except perhaps before chunk `x` or before chunk `y`. */
  ghost predicate SpacedBut(bs: seq<Block>, x: int, y: int) {
    forall i :: 0 <= i < |bs| - 1 && i + 1 != x && i + 1 != y ==> Apart(bs, i)
  }

  lemma DropSpaced(bs: seq<Block>, k: int, x: int)
    requires SpacedBut(bs, x, k) && x < k && 0 < k < |bs| - 1 && bs[k + 1].used
    ensures SpacedBut(Drop(bs, k), x, x)
  {
    var r := Drop(bs, k);
    forall i | 0 <= i < |r| - 1 && i + 1 != x ensures Apart(r, i) {
      if i < k - 1 { assert Apart(bs, i); } else if i >= k { assert Apart(bs, i + 1); }
    }
  }

  /** After freeing `k`, the only possible pair of adjacent free chunks is k-1, k. */
  lemma MergeNextKeeps(bs: seq<Block>, k: int)
    requires WellFormed(bs) && 0 <= k < |bs| - 1 && bs[k].used
    ensures var b := MergeNext(bs, k);
            && k + 1 < |b| && Ordered(b) && InArea(b) && !b[k].used && b[k].addr == bs[k].addr
            && b[k + 1].used && b[|b| - 1].used && SpacedBut(b, k, k)
  {
    MarkKeeps(bs, k, false);
    var a := Mark(bs, k, false);
    forall i | 0 <= i < |a| - 1 && i + 1 != k && i != k ensures Apart(a, i) {
      assert Apart(bs, i);
    }
    if !bs[k + 1].used {
      assert Apart(bs, k + 1);
      DropKeeps(a, k + 1);
      DropSpaced(a, k + 1, k);
    }
  }

  lemma MergeNextRest(bs: seq<Block>, k: int)
    requires 0 <= k < |bs| - 1 && bs[|bs| - 1].used
    ensures var b := MergeNext(bs, k);
            k + 1 < |b| && b[|b| - 1] == bs[|bs| - 1] && forall i :: 0 <= i < k ==> b[i] == bs[i]
  {}

  lemma MergePrevKeeps(b: seq<Block>, k: int)
    requires 0 <= k < |b| - 1 && Ordered(b) && InArea(b) && SpacedBut(b, k, k)
    requires !b[k].used && b[k + 1].used && b[|b| - 1].used
    ensures WellFormed(MergePrev(b, k))
  {
    if k > 0 && !b[k - 1].used {
      DropKeeps(b, k);
      DropSpaced(b, k, 0);
    }
  }

  lemma FreeKeeps(bs: seq<Block>, k: int)
    requires WellFormed(bs) && 0 <= k < |bs| - 1 && bs[k].used
    ensures WellFormed(Free(bs, k))
  {
    MergeNextKeeps(bs, k);
    MergePrevKeeps(MergeNext(bs, k), k);
  }

  lemma DropAligned(bs: seq<Block>, k: int)
    requires DataAligned(bs) && 0 <= k < |bs|
    ensures DataAligned(Drop(bs, k))
  {
    var r := Drop(bs, k);
    forall i | 0 <= i < |r| ensures At16(r[i]) {
      assert At16(bs[if i < k then i else i + 1]);
    }
  }

  lemma FreeKeepsAlignment(bs: seq<Block>, k: int)
    requires DataAligned(bs) && 0 <= k < |bs| - 1
    ensures DataAligned(Free(bs, k))
  {
    var a := Mark(bs, k, false);
    forall i | 0 <= i < |a| ensures At16(a[i]) {
      assert At16(bs[i]);
    }
    DropAligned(a, k + 1);
    DropAligned(MergeNext(bs, k), k);
  }

  // ---------- the ring walk of malloc ----------

  /** How far ahead of `i` the chunk `j` lies on the ring of `n` chunks. */
  function Ahead(n: nat, i: int, j: int): (d: int)
    requires 0 <= i < n && 0 <= j < n
    ensures 0 <= d < n
  {
    if i <= j then j - i else j - i + n
  }

  lemma {:induction false} SearchIsFirst(bs: seq<Block>, i: int, steps: nat, size: int, j: int)
    requires 0 <= i < |bs| && steps <= |bs| && 0 <= j < |bs| && Ahead(|bs|, i, j) < steps && Fits(bs, j, size)
    ensures var k := Search(bs, i, steps, size); k < |bs| && Ahead(|bs|, i, k) <= Ahead(|bs|, i, j)
    decreases steps
  {
    if !Fits(bs, i, size) {
      SearchIsFirst(bs, Succ(|bs|, i), steps - 1, size, j);
    }
  }

  /** Chunk `j` is free, holds `size` bytes and does not look negative to the size test. */
  predicate Suits(bs: seq<Block>, j: int, size: int)
    requires 0 <= j < |bs| - 1
  {
    !bs[j].used && size <= bs[j + 1].addr - bs[j].addr - 12 <= 0x7FFF_FFFF
  }

  /** malloc fails exactly for a size out of range, or when no free chunk of at most INT_MAX bytes holds the size. */
  lemma MallocComplete(bs: seq<Block>, c: int, size: int)
    requires 0 <= c < |bs|
    ensures Malloc(bs, c, size) == None <==>
            size <= 0 || size > 0x7FFF_FFFF || forall j :: 0 <= j < |bs| - 1 ==> !Suits(bs, j, size)
  {
    if j :| 0 < size <= 0x7FFF_FFFF && 0 <= j < |bs| - 1 && Suits(bs, j, size) {
      SearchIsFirst(bs, c, |bs|, size, j);
    }
    if Malloc(bs, c, size).Some? { assert Suits(bs, Malloc(bs, c, size).value, size); }
  }

  /** Otherwise it takes a suitable chunk, and the first such in ring order from `c`. */
  lemma MallocFirst(bs: seq<Block>, c: int, size: int, j: int)
    requires 0 <= c < |bs| && 0 <= j < |bs| - 1 && Malloc(bs, c, size).Some?
    ensures var k := Malloc(bs, c, size).value;
            && 0 <= k < |bs| - 1 && Suits(bs, k, size)
            && (Suits(bs, j, size) ==> Ahead(|bs|, c, k) <= Ahead(|bs|, c, j))
  {
    if Suits(bs, j, size) { SearchIsFirst(bs, c, |bs|, size, j); }
  }

  /** A free chunk of 2^31 bytes looks negative to the size test: malloc(1) fails although 2^31 bytes are free. */
  lemma HugeChunkIsSkipped()
    ensures var bs := [Block(4, false), Block(0x8000_0010, true)];
            WellFormed(bs) && Size(bs, 0) == 0x8000_0000 && Malloc(bs, 0, 1) == None
  {
    var bs := [Block(4, false), Block(0x8000_0010, true)];
    assert Placed(bs[0]) && Placed(bs[1]) && Before(bs, 0, 1) && Apart(bs, 0);
    MallocComplete(bs, 0, 1);
  }

  // ---------- live blocks ----------

  /** Chunk `i` is handed out, with its header at `a` and its data ending at `e`. */
  ghost predicate LiveAt(bs: seq<Block>, i: int, a: int, e: int) {
    0 <= i < |bs| - 1 && bs[i].used && bs[i].addr == a && bs[i + 1].addr == e
  }

  ghost predicate Live(bs: seq<Block>, a: int, e: int) {
    exists i :: LiveAt(bs, i, a, e)
  }

  lemma LiveDisjoint(bs: seq<Block>, a: int, e: int, a': int, e': int)
    requires Ordered(bs) && Live(bs, a, e) && Live(bs, a', e')
    ensures a + HEADER <= e && (a == a' ==> e == e') && (a < a' ==> e <= a')
  {
    var i :| LiveAt(bs, i, a, e);
    var i' :| LiveAt(bs, i', a', e');
    assert Before(bs, i, i + 1);
    assert i < i' ==> Before(bs, i, i') && (i + 1 < i' ==> Before(bs, i + 1, i'));
    assert i' < i ==> Before(bs, i', i);
  }

  /** Dropping a free chunk whose predecessor is free too changes no live block. */
  lemma DropLive(bs: seq<Block>, k: int, a: int, e: int)
    requires 0 < k < |bs| - 1 && !bs[k].used && !bs[k - 1].used
    ensures Live(Drop(bs, k), a, e) <==> Live(bs, a, e)
  {
    var r := Drop(bs, k);
    if i :| LiveAt(bs, i, a, e) {
      assert LiveAt(r, if i < k then i else i - 1, a, e);
    }
    if i :| LiveAt(r, i, a, e) {
      assert LiveAt(bs, if i < k then i else i + 1, a, e);
    }
  }

  lemma UnmarkLive(bs: seq<Block>, k: int, a: int, e: int)
    requires Ordered(bs) && 0 <= k < |bs| - 1 && bs[k].used
    ensures Live(Mark(bs, k, false), a, e) <==> Live(bs, a, e) && a != bs[k].addr
  {
    var r := Mark(bs, k, false);
    if i :| LiveAt(bs, i, a, e) && i != k {
      assert LiveAt(r, i, a, e);
    }
    if i :| LiveAt(r, i, a, e) {
      assert LiveAt(bs, i, a, e);
      if a == bs[k].addr { IndexIsUnique(bs, i, k); }
    }
  }

  /** free ends exactly the block it is given. */
  lemma FreeLive(bs: seq<Block>, k: int, a: int, e: int)
    requires WellFormed(bs) && 0 <= k < |bs| - 1 && bs[k].used
    ensures Live(Free(bs, k), a, e) <==> Live(bs, a, e) && a != bs[k].addr
  {
    UnmarkLive(bs, k, a, e);
    MergeNextKeeps(bs, k);
    MergeNextRest(bs, k);
    var b := MergeNext(bs, k);
    if !bs[k + 1].used {
      DropLive(Mark(bs, k, false), k + 1, a, e);
    }
    if k > 0 && !b[k - 1].used {
      DropLive(b, k, a, e);
    }
  }

  lemma LeastMultiple(x: int, m: int)
    requires 0 <= x <= m && m % 16 == 0
    ensures Aligned(x) <= m
  {}

  /**
   What malloc makes of the chunk it takes. The block reaches to the least multiple of 16 behind its header that holds
   the size, if that leaves room for a header and four bytes, which are then one free chunk up to the old end;
   otherwise it is the whole chunk. So it is never more than 30 bytes too long. No other chunk changes.
   */
  lemma TakeExact(bs: seq<Block>, k: int, size: int, m: int)
    requires 0 <= k < |bs| - 1 && 0 < size <= bs[k + 1].addr - bs[k].addr - 12
    ensures k + 1 < |Take(bs, k, size)| && Take(bs, k, size)[..k] == bs[..k]
    ensures var r := Take(bs, k, size); var a, end, was := bs[k].addr, r[k + 1].addr, bs[k + 1].addr;
            && r[k] == Block(a, true) && end <= was && size <= end - a - 12 <= size + 30
            && (end == was ==> r[k + 1..] == bs[k + 1..])
            && (end < was ==> r[k + 1] == Block(end, false) && r[k + 2..] == bs[k + 1..])
            && (end < was ==> (end - a) % 16 == 0 && end + 16 <= was)
            && (size + 12 <= m && m % 16 == 0 && a + m + 16 <= was ==> end <= a + m)
  {
    if size + 12 <= m && m % 16 == 0 { LeastMultiple(size + 12, m); }
  }

  /** malloc hands out one new block that holds `size` bytes and leaves every live block as it was. */
  lemma TakeLive(bs: seq<Block>, k: int, size: int, a: int, e: int)
    requires WellFormed(bs) && 0 <= k < |bs| - 1 && !bs[k].used && 0 < size <= Size(bs, k)
    ensures var r := Take(bs, k, size);
            && k + 1 < |r| && LiveAt(r, k, bs[k].addr, r[k + 1].addr)
            && size <= r[k + 1].addr - bs[k].addr - 12 <= size + 30
    ensures var r := Take(bs, k, size);
            Live(r, a, e) <==> Live(bs, a, e) || (a == bs[k].addr && e == r[k + 1].addr)
  {
    var r := Take(bs, k, size);
    TakeExact(bs, k, size, 0);
    assert LiveAt(r, k, bs[k].addr, r[k + 1].addr);
    TakeLiveForth(bs, k, size, a, e);
    TakeLiveBack(bs, k, size, a, e);
  }

  lemma TakeLiveForth(bs: seq<Block>, k: int, size: int, a: int, e: int)
    requires 0 <= k < |bs| - 1 && !bs[k].used && 0 < size
    ensures Live(bs, a, e) ==> Live(Take(bs, k, size), a, e)
  {
    var r := Take(bs, k, size);
    if i :| LiveAt(bs, i, a, e) {
      assert LiveAt(r, if i < k || !Splits(bs, k, size) then i else i + 1, a, e);
    }
  }

  lemma TakeLiveBack(bs: seq<Block>, k: int, size: int, a: int, e: int)
    requires 0 <= k < |bs| - 1 && !bs[k].used && 0 < size
    ensures var r := Take(bs, k, size);
            Live(r, a, e) ==> Live(bs, a, e) || (a == bs[k].addr && e == r[k + 1].addr)
  {
    var r := Take(bs, k, size);
    if i :| LiveAt(r, i, a, e) && i != k {
      assert LiveAt(bs, if i < k || !Splits(bs, k, size) then i else i - 1, a, e);
    }
  }

  // ---------- realloc, the branches that keep the block in place ----------

  function NewEnd(bs: seq<Block>, k: int, size: int): int
    requires 0 <= k < |bs| && 0 <= size
  {
    bs[k].addr + HEADER + Aligned(size)
  }

  /** Shrinking, but by too little for a new chunk: nothing changes. */
  predicate TooSmallToCut(bs: seq<Block>, k: int, size: int)
    requires 0 <= k < |bs| - 1 && 0 <= size
  {
    Aligned(size) < Size(bs, k) <= Aligned(size) + HEADER
  }

  /** None when the code would relocate the block. */
  function Resize(bs: seq<Block>, k: int, size: int): (r: Option<seq<Block>>)
    requires 0 <= k < |bs| - 1 && 0 <= size
    requires bs[|bs| - 1].used
  {
    var end := NewEnd(bs, k, size);
    if TooSmallToCut(bs, k, size) then Some(bs)
    else if Aligned(size) < Size(bs, k) then
      if bs[k + 1].used then Some(Insert(bs, k + 1, Block(end, false)))
      else Some(bs[k + 1 := Block(end, false)])
    else if !bs[k + 1].used && Size(bs, k + 1) >= Aligned(size) - Size(bs, k) then
      Some(bs[k + 1 := Block(end, false)])
    else None
  }

  /**
   What realloc does where the block is. It has to relocate exactly if the block is too small and the chunk behind it is
   used or too small to make up for it. The new size is the one asked for, rounded up to 16, unless shrinking would
   leave no more than a header. What is left over is one free chunk, up to where the next used one begins.
   */
  lemma ResizeExact(bs: seq<Block>, k: int, size: int)
    requires 0 <= k < |bs| - 1 && 0 <= size && bs[|bs| - 1].used
    ensures var has, wants := bs[k + 1].addr - bs[k].addr - 12, Aligned(size);
            && (Resize(bs, k, size).None? <==>
                  has <= wants && (bs[k + 1].used || bs[k + 2].addr - bs[k + 1].addr - 12 < wants - has))
            && (wants < has <= wants + 12 ==> Resize(bs, k, size) == Some(bs))
            && (Resize(bs, k, size).Some? && !(wants < has <= wants + 12) ==>
                  && k + 1 < |Resize(bs, k, size).value|
                  && var r := Resize(bs, k, size).value;
                     && r[..k + 1] == bs[..k + 1] && r[k + 1] == Block(bs[k].addr + 12 + wants, false)
                     && r[k + 2..] == if bs[k + 1].used then bs[k + 1..] else bs[k + 2..])
  {}

  lemma MoveKeeps(bs: seq<Block>, j: int, addr: int)
    requires WellFormed(bs) && 0 < j < |bs| - 1 && !bs[j].used
    requires bs[j - 1].addr + HEADER <= addr && addr + HEADER <= bs[j + 1].addr && addr % 4 == 0
    ensures WellFormed(bs[j := Block(addr, false)])
  {
    var r := bs[j := Block(addr, false)];
    forall i, l | 0 <= i < l < |r| ensures Before(r, i, l) {
      assert Before(bs, i, l);
      if l == j && i < j - 1 { assert Before(bs, i, j - 1); }
      if i == j && j + 1 < l { assert Before(bs, j + 1, l); }
    }
    assert Placed(bs[j - 1]) && Placed(bs[j + 1]);
    forall i | 0 <= i < |r| ensures Placed(r[i]) { assert i != j ==> Placed(bs[i]); }
    forall i | 0 <= i < |r| - 1 ensures Apart(r, i) { assert Apart(bs, i); }
  }

  lemma ResizeKeeps(bs: seq<Block>, k: int, size: int)
    requires WellFormed(bs) && 0 <= k < |bs| - 1 && bs[k].used && 0 <= size
    ensures var r := Resize(bs, k, size); r.Some? ==> WellFormed(r.value)
  {
    var end := NewEnd(bs, k, size);
    assert Placed(bs[k]) && Before(bs, k, k + 1) && Apart(bs, k);
    ShiftBy4(bs[k].addr, 3 + 4 * (Aligned(size) / ALIGN));
    if Aligned(size) + HEADER < Size(bs, k) && bs[k + 1].used {
      InsertKeeps(bs, k + 1, Block(end, false));
    } else if !bs[k + 1].used && !TooSmallToCut(bs, k, size) && Resize(bs, k, size).Some? {
      assert Before(bs, k + 1, k + 2);
      MoveKeeps(bs, k + 1, end);
    }
  }

  /** `r` has the live blocks of `bs`, except that chunk `k` now ends where r[k+1] starts. */
  ghost predicate EndMoved(bs: seq<Block>, r: seq<Block>, k: int, a: int, e: int)
    requires 0 <= k < |bs| && k + 1 < |r|
  {
    Live(r, a, e) <==> (Live(bs, a, e) && a != bs[k].addr) || (a == bs[k].addr && e == r[k + 1].addr)
  }

  lemma InsertMovesEnd(bs: seq<Block>, k: int, end: int, a: int, e: int)
    requires Ordered(bs) && 0 <= k < |bs| - 1 && bs[k].used
    ensures EndMoved(bs, Insert(bs, k + 1, Block(end, false)), k, a, e)
  {
    var r := Insert(bs, k + 1, Block(end, false));
    assert LiveAt(r, k, bs[k].addr, end);
    if i :| LiveAt(bs, i, a, e) && i != k {
      assert LiveAt(r, if i < k then i else i + 1, a, e);
    }
    if i :| LiveAt(r, i, a, e) && i != k {
      assert LiveAt(bs, if i < k then i else i - 1, a, e);
      if a == bs[k].addr { IndexIsUnique(bs, if i < k then i else i - 1, k); }
    }
  }

  lemma MoveMovesEnd(bs: seq<Block>, k: int, end: int, a: int, e: int)
    requires Ordered(bs) && 0 <= k < |bs| - 2 && bs[k].used && !bs[k + 1].used
    ensures EndMoved(bs, bs[k + 1 := Block(end, false)], k, a, e)
  {
    var r := bs[k + 1 := Block(end, false)];
    assert LiveAt(r, k, bs[k].addr, end);
    if i :| LiveAt(bs, i, a, e) && i != k {
      assert LiveAt(r, i, a, e);
    }
    if i :| LiveAt(r, i, a, e) && i != k {
      assert LiveAt(bs, i, a, e);
      if a == bs[k].addr { IndexIsUnique(bs, i, k); }
    }
  }

  lemma SameMovesEnd(bs: seq<Block>, k: int, a: int, e: int)
    requires Ordered(bs) && 0 <= k < |bs| - 1 && bs[k].used
    ensures EndMoved(bs, bs, k, a, e)
  {
    assert LiveAt(bs, k, bs[k].addr, bs[k + 1].addr);
    if i :| LiveAt(bs, i, a, e) && a == bs[k].addr {
      IndexIsUnique(bs, i, k);
    }
  }

  /** Only the end of the resized block moves; it is the new size unless there is no room for a chunk. */
  lemma ResizeLive(bs: seq<Block>, k: int, size: int, a: int, e: int)
    requires WellFormed(bs) && 0 <= k < |bs| - 1 && bs[k].used && 0 <= size && Resize(bs, k, size).Some?
    ensures var r := Resize(bs, k, size).value;
            && k + 1 < |r| && r[k] == bs[k]
            && (r == bs || r[k + 1].addr == NewEnd(bs, k, size))
            && size <= r[k + 1].addr - bs[k].addr - HEADER
            && EndMoved(bs, r, k, a, e)
  {
    if TooSmallToCut(bs, k, size) {
      SameMovesEnd(bs, k, a, e);
    } else if bs[k + 1].used {
      InsertMovesEnd(bs, k, NewEnd(bs, k, size), a, e);
    } else {
      MoveMovesEnd(bs, k, NewEnd(bs, k, size), a, e);
    }
  }
}
