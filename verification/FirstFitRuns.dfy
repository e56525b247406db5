/**
 Whole histories of the first-fit heap: any mix of malloc, free and in-place
 realloc on a fresh area.
 */
module FirstFitRuns {
  import opened Options
  import opened FirstFitSpec

  ghost function IndexOf(bs: seq<Block>, a: int): (i: int)
    requires exists i :: 0 <= i < |bs| && bs[i].addr == a
    ensures 0 <= i < |bs| && bs[i].addr == a
  {
    var i :| 0 <= i < |bs| && bs[i].addr == a;
    i
  }

  ghost predicate Handed(bs: seq<Block>, a: int) {
    exists e :: Live(bs, a, e)
  }

  /** `p` is the data pointer of a block that is handed out. */
  ghost predicate IsBlock(h: Heap, p: int) {
    Handed(h.blocks, p - HEADER)
  }

  lemma BlockIndex(h: Heap, p: int)
    requires Valid(h) && IsBlock(h, p)
    ensures exists i :: 0 <= i < |h.blocks| && h.blocks[i].addr == p - HEADER
    ensures var k := IndexOf(h.blocks, p - HEADER); k < |h.blocks| - 1 && h.blocks[k].used
  {
    var e :| Live(h.blocks, p - HEADER, e);
    var i :| LiveAt(h.blocks, i, p - HEADER, e);
    IndexIsUnique(h.blocks, i, IndexOf(h.blocks, p - HEADER));
  }

  /** The pointer malloc returns, 0 for null. */
  ghost function MallocResult(h: Heap, size: int): (p: int)
    requires Valid(h)
  {
    match Malloc(h.blocks, IndexOf(h.blocks, h.current), size)
    case None => 0
    case Some(k) => h.blocks[k].addr + HEADER
  }

  ghost function AfterMalloc(h: Heap, size: int): (r: Heap)
    requires Valid(h)
  {
    match Malloc(h.blocks, IndexOf(h.blocks, h.current), size)
    case None => h
    case Some(k) => var bs := Take(h.blocks, k, size); Heap(bs, bs[k + 1].addr)
  }

  ghost function AfterFree(h: Heap, p: int): (r: Heap)
    requires Valid(h) && (p == 0 || IsBlock(h, p))
  {
    if p == 0 then h
    else
      BlockIndex(h, p);
      var bs := h.blocks;
      var k := IndexOf(bs, p - HEADER);
      Heap(Free(bs, k), bs[if k > 0 && !bs[k - 1].used then k - 1 else k].addr)
  }

  /** Where `current` points after a resize of chunk `k`. */
  function MovedCurrent(bs: seq<Block>, k: int, size: int, current: int): int
    requires 0 <= k < |bs| - 1 && 0 <= size && bs[|bs| - 1].used
  {
    if bs[k + 1].used || current != bs[k + 1].addr then current
    else if Aligned(size) + HEADER < Size(bs, k) then NewEnd(bs, k, size)
    else if Aligned(size) < Size(bs, k) then current
    else bs[k + 2].addr
  }

  ghost predicate ResizesInPlace(h: Heap, p: int, size: int)
    requires Valid(h) && IsBlock(h, p)
  {
    BlockIndex(h, p);
    0 <= size && Resize(h.blocks, IndexOf(h.blocks, p - HEADER), size).Some?
  }

  ghost function AfterResize(h: Heap, p: int, size: int): (r: Heap)
    requires Valid(h) && IsBlock(h, p) && ResizesInPlace(h, p, size)
  {
    BlockIndex(h, p);
    var k := IndexOf(h.blocks, p - HEADER);
    Heap(Resize(h.blocks, k, size).value, MovedCurrent(h.blocks, k, size, h.current))
  }

  // ---------- what one operation does ----------

  lemma UsedIsHanded(bs: seq<Block>, i: int)
    requires 0 <= i < |bs| - 1
    ensures bs[i].used ==> Handed(bs, bs[i].addr)
  {
    if bs[i].used {
      assert LiveAt(bs, i, bs[i].addr, bs[i + 1].addr);
      assert Live(bs, bs[i].addr, bs[i + 1].addr);
    }
  }

  ghost predicate SameArea(bs: seq<Block>, r: seq<Block>)
    requires |bs| >= 2 && |r| >= 2
  {
    bs[0].addr == r[0].addr && bs[|bs| - 1].addr == r[|r| - 1].addr
  }

  lemma TakeBlocks(bs: seq<Block>, k: int, size: int, a: int)
    requires WellFormed(bs) && 0 <= k < |bs| - 1 && !bs[k].used && 0 < size <= Size(bs, k)
    ensures Handed(Take(bs, k, size), a) <==> Handed(bs, a) || a == bs[k].addr
    ensures !Handed(bs, bs[k].addr)
  {
    var r := Take(bs, k, size);
    forall e { TakeLive(bs, k, size, a, e); }
    assert a == bs[k].addr ==> Live(r, a, r[k + 1].addr);
    if e, i :| LiveAt(bs, i, bs[k].addr, e) {
      IndexIsUnique(bs, i, k);
    }
  }

  lemma TakeArea(bs: seq<Block>, k: int, size: int)
    requires |bs| >= 2 && 0 <= k < |bs| - 1 && 0 <= size
    ensures var r := Take(bs, k, size); |r| >= 2 && k + 1 < |r| && SameArea(bs, r)
  {}

  lemma MallocStep(h: Heap, size: int, q: int)
    requires Valid(h)
    ensures Valid(AfterMalloc(h, size)) && SameArea(h.blocks, AfterMalloc(h, size).blocks)
    ensures IsBlock(AfterMalloc(h, size), q) <==> IsBlock(h, q) || (q == MallocResult(h, size) && q != 0)
    ensures MallocResult(h, size) != 0 ==> !IsBlock(h, MallocResult(h, size))
  {
    var m := Malloc(h.blocks, IndexOf(h.blocks, h.current), size);
    if m.Some? {
      TakeKeeps(h.blocks, m.value, size);
      TakeArea(h.blocks, m.value, size);
      TakeBlocks(h.blocks, m.value, size, q - HEADER);
    }
  }

  lemma FreeArea(bs: seq<Block>, k: int)
    requires WellFormed(bs) && 0 <= k < |bs| - 1 && bs[k].used
    ensures var r := Free(bs, k); |r| >= 2 && SameArea(bs, r)
    ensures var r := Free(bs, k); var j := if k > 0 && !bs[k - 1].used then k - 1 else k;
            j < |r| && r[j].addr == bs[j].addr
  {
    MergeNextKeeps(bs, k);
    MergeNextRest(bs, k);
    var b := MergeNext(bs, k);
    if k > 0 && !b[k - 1].used {
      assert |Drop(b, k)| == |b| - 1 && Drop(b, k)[|b| - 2] == b[|b| - 1];
    }
  }

  lemma FreeBlocks(bs: seq<Block>, k: int, a: int)
    requires WellFormed(bs) && 0 <= k < |bs| - 1 && bs[k].used
    ensures Handed(Free(bs, k), a) <==> Handed(bs, a) && a != bs[k].addr
  {
    forall e { FreeLive(bs, k, a, e); }
  }

  lemma FreeStep(h: Heap, p: int)
    requires Valid(h) && (p == 0 || IsBlock(h, p))
    ensures Valid(AfterFree(h, p)) && SameArea(h.blocks, AfterFree(h, p).blocks)
  {
    if p != 0 {
      BlockIndex(h, p);
      var k := IndexOf(h.blocks, p - HEADER);
      FreeKeeps(h.blocks, k);
      FreeArea(h.blocks, k);
    }
  }

  lemma FreeStepBlocks(h: Heap, p: int, q: int)
    requires Valid(h) && (p == 0 || IsBlock(h, p))
    ensures IsBlock(AfterFree(h, p), q) <==> IsBlock(h, q) && (p == 0 || q != p)
  {
    if p != 0 {
      BlockIndex(h, p);
      var k := IndexOf(h.blocks, p - HEADER);
      FreeBlocks(h.blocks, k, q - HEADER);
      assert AfterFree(h, p).blocks == Free(h.blocks, k);
    }
  }

  lemma ResizeArea(bs: seq<Block>, k: int, size: int)
    requires WellFormed(bs) && 0 <= k < |bs| - 1 && bs[k].used && 0 <= size && Resize(bs, k, size).Some?
    ensures var r := Resize(bs, k, size).value; |r| >= 2 && SameArea(bs, r)
  {}

  lemma ResizeCurrent(bs: seq<Block>, k: int, size: int, i: int)
    requires WellFormed(bs) && 0 <= k < |bs| - 1 && bs[k].used && 0 <= size && Resize(bs, k, size).Some?
    requires 0 <= i < |bs|
    ensures var r := Resize(bs, k, size).value;
            exists j :: 0 <= j < |r| && r[j].addr == MovedCurrent(bs, k, size, bs[i].addr)
  {
    var r := Resize(bs, k, size).value;
    if |r| > |bs| {
      assert r[if i <= k then i else i + 1].addr == bs[i].addr;
    } else if i != k + 1 || r == bs {
      if bs[i].addr == bs[k + 1].addr { IndexIsUnique(bs, i, k + 1); }
      assert r[i].addr == bs[i].addr;
    } else if Aligned(size) < Size(bs, k) {
      assert r[k + 1].addr == NewEnd(bs, k, size);
    } else {
      assert r[k + 2].addr == bs[k + 2].addr;
    }
  }

  lemma ResizeStep(h: Heap, p: int, size: int)
    requires Valid(h) && IsBlock(h, p) && ResizesInPlace(h, p, size)
    ensures Valid(AfterResize(h, p, size)) && SameArea(h.blocks, AfterResize(h, p, size).blocks)
  {
    BlockIndex(h, p);
    var k := IndexOf(h.blocks, p - HEADER);
    ResizeKeeps(h.blocks, k, size);
    ResizeArea(h.blocks, k, size);
    ResizeCurrent(h.blocks, k, size, IndexOf(h.blocks, h.current));
  }

  lemma ResizeBlocks(bs: seq<Block>, k: int, size: int, a: int)
    requires WellFormed(bs) && 0 <= k < |bs| - 1 && bs[k].used && 0 <= size && Resize(bs, k, size).Some?
    ensures Handed(Resize(bs, k, size).value, a) <==> Handed(bs, a)
  {
    var r := Resize(bs, k, size).value;
    ResizeLive(bs, k, size, a, 0);
    UsedIsHanded(bs, k);
    UsedIsHanded(r, k);
    forall e ensures a != bs[k].addr ==> (Live(r, a, e) <==> Live(bs, a, e)) {
      ResizeLive(bs, k, size, a, e);
    }
  }

  lemma ResizeStepBlocks(h: Heap, p: int, size: int, q: int)
    requires Valid(h) && IsBlock(h, p) && ResizesInPlace(h, p, size)
    ensures IsBlock(AfterResize(h, p, size), q) <==> IsBlock(h, q)
  {
    BlockIndex(h, p);
    ResizeBlocks(h.blocks, IndexOf(h.blocks, p - HEADER), size, q - HEADER);
  }

  // ---------- histories ----------

  datatype Op = OpMalloc(size: int) | OpFree(p: int) | OpRealloc(p: int, size: int)

  ghost predicate Legal(h: Heap, op: Op)
    requires Valid(h)
  {
    match op
    case OpMalloc(_) => true
    case OpFree(p) => p == 0 || IsBlock(h, p)
    case OpRealloc(p, size) => IsBlock(h, p) && ResizesInPlace(h, p, size)
  }

  ghost function Apply(h: Heap, op: Op): Heap
    requires Valid(h) && Legal(h, op)
  {
    match op
    case OpMalloc(size) => AfterMalloc(h, size)
    case OpFree(p) => AfterFree(h, p)
    case OpRealloc(p, size) => AfterResize(h, p, size)
  }

  function Fresh(first: int, end: int): Heap {
    Heap([Block(first, false), Block(end, true)], first)
  }

  /** The heap after `ops`, or None if the caller broke the rules on the way. */
  ghost function Run(h: Heap, ops: seq<Op>): (r: Option<Heap>)
    ensures r.Some? ==> Valid(r.value)
  {
    if ops == [] then (if Valid(h) then Some(h) else None)
    else
      var r := Run(h, ops[..|ops| - 1]);
      var op := ops[|ops| - 1];
      if r.None? || !Legal(r.value, op) then None
      else ApplyKeeps(r.value, op, 0); Some(Apply(r.value, op))
  }

  lemma ApplyKeeps(h: Heap, op: Op, q: int)
    requires Valid(h) && Legal(h, op)
    ensures Valid(Apply(h, op)) && SameArea(h.blocks, Apply(h, op).blocks)
    ensures IsBlock(Apply(h, op), q) <==>
            match op
            case OpMalloc(size) => IsBlock(h, q) || (q == MallocResult(h, size) && q != 0)
            case OpFree(p) => IsBlock(h, q) && (p == 0 || q != p)
            case OpRealloc(_, _) => IsBlock(h, q)
  {
    match op
    case OpMalloc(size) => MallocStep(h, size, q);
    case OpFree(p) => FreeStep(h, p); FreeStepBlocks(h, p, q);
    case OpRealloc(p, size) => ResizeStep(h, p, size); ResizeStepBlocks(h, p, size, q);
  }

  /** The pointers the caller holds: returned by malloc and not freed since. */
  ghost function Held(h: Heap, ops: seq<Op>): (s: set<int>)
    requires Run(h, ops).Some?
  {
    if ops == [] then {}
    else
      var before := Held(h, ops[..|ops| - 1]);
      match ops[|ops| - 1]
      case OpMalloc(size) =>
        var p := MallocResult(Run(h, ops[..|ops| - 1]).value, size);
        if p == 0 then before else before + {p}
      case OpFree(p) => before - {p}
      case OpRealloc(_, _) => before
  }

  /** The caller's pointers are exactly the blocks in use, and the area never changes. */
  lemma {:induction false} RunKeeps(first: int, end: int, ops: seq<Op>, q: int)
    requires Run(Fresh(first, end), ops).Some?
    ensures var r := Run(Fresh(first, end), ops).value;
            && SameArea(Fresh(first, end).blocks, r.blocks)
            && (IsBlock(r, q) <==> q in Held(Fresh(first, end), ops))
  {
    if ops != [] {
      var before := ops[..|ops| - 1];
      RunKeeps(first, end, before, q);
      ApplyKeeps(Run(Fresh(first, end), before).value, ops[|ops| - 1], q);
    }
  }

  lemma UnusedIsOneChunk(bs: seq<Block>)
    requires WellFormed(bs) && forall i :: 0 <= i < |bs| - 1 ==> !bs[i].used
    ensures |bs| == 2
  {
    assert Apart(bs, 0);
  }

  /** Once every pointer has been freed, in whatever order, the heap is one free chunk again. */
  lemma AllFreedIsFresh(first: int, end: int, ops: seq<Op>)
    requires Run(Fresh(first, end), ops).Some? && Held(Fresh(first, end), ops) == {}
    ensures Run(Fresh(first, end), ops).value.blocks == Fresh(first, end).blocks
  {
    var r := Run(Fresh(first, end), ops).value;
    RunKeeps(first, end, ops, 0);
    forall i | 0 <= i < |r.blocks| - 1 ensures !r.blocks[i].used {
      RunKeeps(first, end, ops, r.blocks[i].addr + HEADER);
      UsedIsHanded(r.blocks, i);
    }
    UnusedIsOneChunk(r.blocks);
  }

  lemma TakeDisjoint(bs: seq<Block>, k: int, size: int, a: int, e: int)
    requires WellFormed(bs) && 0 <= k < |bs| - 1 && !bs[k].used && 0 < size <= Size(bs, k) && Live(bs, a, e)
    ensures var r := Take(bs, k, size); k + 1 < |r| && Live(r, a, e) && (e <= bs[k].addr || r[k + 1].addr <= a)
  {
    var r := Take(bs, k, size);
    TakeKeeps(bs, k, size);
    TakeLive(bs, k, size, a, e);
    TakeBlocks(bs, k, size, a);
    assert Live(r, bs[k].addr, r[k + 1].addr);
    assert Handed(bs, a);
    LiveDisjoint(r, a, e, bs[k].addr, r[k + 1].addr);
    LiveDisjoint(r, bs[k].addr, r[k + 1].addr, a, e);
  }

  /** Chunk [a, e) is free. */
  ghost predicate Vacant(bs: seq<Block>, a: int, e: int) {
    exists i :: VacantAt(bs, i, a, e)
  }

  predicate VacantAt(bs: seq<Block>, i: int, a: int, e: int) {
    0 <= i < |bs| - 1 && !bs[i].used && bs[i].addr == a && bs[i + 1].addr == e
  }

  /**
   A malloc that succeeds: the block [p, end) holds `size` bytes and at most 30 more inside the area, and no live block
   overlaps it or changes. It comes out of the free chunk that reached from its header to `was`; the rest of that, if
   any, is free; and the next search starts at `end`.
   */
  lemma MallocSound(h: Heap, size: int, a: int, e: int) returns (end: int, was: int)
    requires Valid(h) && MallocResult(h, size) != 0
    ensures var p := MallocResult(h, size); var r := AfterMalloc(h, size).blocks;
            && Live(r, p - 12, end) && size <= end - p <= size + 30
            && h.blocks[0].addr <= p - 12 && end <= h.blocks[|h.blocks| - 1].addr
            && (Live(h.blocks, a, e) ==> Live(r, a, e) && (e <= p - 12 || end <= a))
            && Vacant(h.blocks, p - 12, was) && (end == was || Vacant(r, end, was))
            && AfterMalloc(h, size).current == end
  {
    var bs := h.blocks;
    var k := Malloc(bs, IndexOf(bs, h.current), size).value;
    TakeInside(bs, k, size);
    TakeExact(bs, k, size, 0);
    if Live(bs, a, e) { TakeDisjoint(bs, k, size, a, e); }
    end, was := Take(bs, k, size)[k + 1].addr, bs[k + 1].addr;
    assert VacantAt(bs, k, bs[k].addr, was);
    if end < was { TakeRest(bs, k, size); }
  }

  lemma TakeRest(bs: seq<Block>, k: int, size: int)
    requires 0 <= k < |bs| - 1 && 0 < size <= Size(bs, k)
    ensures var r := Take(bs, k, size);
            k + 1 < |r| && (r[k + 1].addr < bs[k + 1].addr ==> VacantAt(r, k + 1, r[k + 1].addr, bs[k + 1].addr))
  {}

  /** malloc returns null exactly for a size out of range or when no chunk suits. */
  lemma MallocExact(h: Heap, size: int)
    requires Valid(h)
    ensures MallocResult(h, size) == 0 <==>
            size <= 0 || size > 0x7FFF_FFFF || forall j :: 0 <= j < |h.blocks| - 1 ==> !Suits(h.blocks, j, size)
  {
    var m := Malloc(h.blocks, IndexOf(h.blocks, h.current), size);
    MallocComplete(h.blocks, IndexOf(h.blocks, h.current), size);
    if m.Some? { assert Placed(h.blocks[m.value]); }
  }

  /** The next search after a free starts at the free chunk that now takes in the whole freed block. */
  lemma FreeCurrent(h: Heap, p: int, e: int) returns (end: int)
    requires Valid(h) && Live(h.blocks, p - 12, e)
    ensures p != 0 && IsBlock(h, p)
    ensures var r := AfterFree(h, p); Vacant(r.blocks, r.current, end) && r.current <= p - 12 && e <= end
  {
    assert IsBlock(h, p);
    BlockIndex(h, p);
    var k := IndexOf(h.blocks, p - HEADER);
    var i :| LiveAt(h.blocks, i, p - HEADER, e);
    IndexIsUnique(h.blocks, i, k);
    assert Placed(h.blocks[k]);
    end := FreeChunk(h.blocks, k);
  }

  lemma FreeChunk(bs: seq<Block>, k: int) returns (end: int)
    requires WellFormed(bs) && 0 <= k < |bs| - 1 && bs[k].used
    ensures var j := if k > 0 && !bs[k - 1].used then k - 1 else k;
            VacantAt(Free(bs, k), j, bs[j].addr, end) && bs[j].addr <= bs[k].addr && bs[k + 1].addr <= end
  {
    MergeNextKeeps(bs, k);
    MergeNextRest(bs, k);
    var b := MergeNext(bs, k);
    end := b[k + 1].addr;
    if !bs[k + 1].used { OrderOf(bs, k + 1, k + 2); }
    if k > 0 { OrderOf(bs, k - 1, k); }
  }

  /** And after a resize it starts where it would have, unless that was the free chunk the resize moved or used up. */
  lemma ResizeMovesCurrent(h: Heap, p: int, size: int, k: int)
    requires Valid(h) && IsBlock(h, p) && ResizesInPlace(h, p, size)
    requires 0 <= k < |h.blocks| - 1 && h.blocks[k].addr == p - 12
    ensures var bs, u := h.blocks, AfterResize(h, p, size);
            var has, wants := bs[k + 1].addr - bs[k].addr - 12, Aligned(size);
            if !bs[k + 1].used && h.current == bs[k + 1].addr && !(wants < has <= wants + 12)
            then u.current == if wants < has then p + wants else bs[k + 2].addr
            else u.current == h.current
  {
    BlockIndex(h, p);
    IndexIsUnique(h.blocks, k, IndexOf(h.blocks, p - HEADER));
  }

  lemma TakeInside(bs: seq<Block>, k: int, size: int)
    requires WellFormed(bs) && 0 <= k < |bs| - 1 && !bs[k].used && 0 < size <= Size(bs, k)
    ensures var r := Take(bs, k, size);
            && k + 1 < |r| && Live(r, bs[k].addr, r[k + 1].addr)
            && bs[0].addr <= bs[k].addr && r[k + 1].addr <= bs[|bs| - 1].addr
  {
    var r := Take(bs, k, size);
    TakeKeeps(bs, k, size);
    TakeLive(bs, k, size, bs[k].addr, r[k + 1].addr);
    TakeArea(bs, k, size);
    OrderOf(bs, 0, k);
    OrderOf(r, k + 1, |r| - 1);
  }

  lemma PointerAligned(x: int)
    requires x % ALIGN == ALIGN - HEADER
    ensures (x + HEADER) % ALIGN == 0
  {}

  lemma MallocAligned(h: Heap, size: int)
    requires Valid(h) && DataAligned(h.blocks)
    ensures MallocResult(h, size) % ALIGN == 0
  {
    var m := Malloc(h.blocks, IndexOf(h.blocks, h.current), size);
    if m.Some? {
      assert At16(h.blocks[m.value]);
      PointerAligned(h.blocks[m.value].addr);
    }
  }

  lemma {:induction false} AlignedRun(first: int, end: int, ops: seq<Op>)
    requires Run(Fresh(first, end), ops).Some? && DataAligned(Fresh(first, end).blocks)
    requires forall i :: 0 <= i < |ops| ==> !ops[i].OpRealloc?
    ensures DataAligned(Run(Fresh(first, end), ops).value.blocks)
  {
    if ops != [] {
      var before := ops[..|ops| - 1];
      AlignedRun(first, end, before);
      AlignedStep(Run(Fresh(first, end), before).value, ops[|ops| - 1]);
    }
  }

  lemma AlignedStep(h: Heap, op: Op)
    requires Valid(h) && Legal(h, op) && !op.OpRealloc? && DataAligned(h.blocks)
    ensures DataAligned(Apply(h, op).blocks)
  {
    match op
    case OpMalloc(size) => AlignedMalloc(h, size);
    case OpFree(p) => AlignedFree(h, p);
  }

  lemma AlignedMalloc(h: Heap, size: int)
    requires Valid(h) && DataAligned(h.blocks)
    ensures DataAligned(AfterMalloc(h, size).blocks)
  {
    var m := Malloc(h.blocks, IndexOf(h.blocks, h.current), size);
    if m.Some? {
      assert Placed(h.blocks[m.value]);
      TakeKeepsAlignment(h.blocks, m.value, size);
    }
  }

  lemma AlignedFree(h: Heap, p: int)
    requires Valid(h) && (p == 0 || IsBlock(h, p)) && DataAligned(h.blocks)
    ensures DataAligned(AfterFree(h, p).blocks)
  {
    if p != 0 {
      BlockIndex(h, p);
      FreeKeepsAlignment(h.blocks, IndexOf(h.blocks, p - HEADER));
    }
  }

  /** Data bytes of the first `n` chunks that are in use, or that are free. */
  function Bytes(bs: seq<Block>, n: nat, used: bool): int
    requires n < |bs|
  {
    if n == 0 then 0
    else Bytes(bs, n - 1, used) + if bs[n - 1].used == used then Size(bs, n - 1) else 0
  }

  lemma {:induction false} BytesTile(bs: seq<Block>, n: nat)
    requires n < |bs|
    ensures Bytes(bs, n, true) + Bytes(bs, n, false) + HEADER * n == bs[n].addr - bs[0].addr
  {
    if n > 0 {
      BytesTile(bs, n - 1);
    }
  }

  /** Used bytes, free bytes and headers always add up to the area. */
  lemma BytesConserved(first: int, end: int, ops: seq<Op>)
    requires Run(Fresh(first, end), ops).Some?
    ensures var bs := Run(Fresh(first, end), ops).value.blocks;
            Bytes(bs, |bs| - 1, true) + Bytes(bs, |bs| - 1, false) + HEADER * |bs| == end - first + HEADER
  {
    RunKeeps(first, end, ops, 0);
    var bs := Run(Fresh(first, end), ops).value.blocks;
    BytesTile(bs, |bs| - 1);
  }
}
