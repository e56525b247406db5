/**
 Regular files of ramfs (src/fs/ramfs.c): at most twelve directly addressed blocks of one page each.
 */
module RamfsFile {
  import opened Options
  import opened PageWords
  import opened FiniteSets

  const BLOCKS := 12            // N_DIRECT_BLOCKS
  const LIMIT := 49152          // BLOCKS * PAGE
  const EIO := 5

  /** The blocks of a file as values: None for a block that was never allocated. */
  type Image = seq<Option<seq<int>>>

  predicate BlockOk(s: Image, i: int)
    requires 0 <= i < |s|
  {
    s[i].Some? ==> |s[i].value| == PAGE
  }

  ghost predicate ImageOk(s: Image) { |s| == BLOCKS && forall i :: 0 <= i < BLOCKS ==> BlockOk(s, i) }

  /** Byte x of the file, if its block exists. */
  function ByteAt(s: Image, x: int): (r: Option<int>)
    requires ImageOk(s) && 0 <= x < LIMIT
  {
    assert BlockOk(s, x / PAGE);
    if s[x / PAGE].None? then None else Some(s[x / PAGE].value[x % PAGE])
  }

  // ---------- what a write does ----------

  /** Blocks lo..hi exist, all others are as they were. */
  ghost predicate BlocksIn(s: Image, t: Image, lo: int, hi: int) {
    && |s| == BLOCKS && |t| == BLOCKS
    && forall i :: 0 <= i < BLOCKS ==> BlockKept(s, t, lo, hi, i)
  }

  predicate BlockKept(s: Image, t: Image, lo: int, hi: int, i: int)
    requires 0 <= i < |s| && |s| == |t|
  {
    if lo <= i < hi then t[i].Some? else t[i] == s[i]
  }

  ghost predicate Holds(t: Image, pos: int, buf: seq<int>, k: int)
    requires ImageOk(t) && 0 <= pos && pos + |buf| <= LIMIT && 0 <= k < |buf|
  {
    ByteAt(t, pos + k) == Some(buf[k])
  }

  /** A byte outside the written range that existed is what it was. */
  ghost predicate Same(s: Image, t: Image, x: int)
    requires ImageOk(s) && ImageOk(t) && 0 <= x < LIMIT
  {
    ByteAt(s, x).Some? ==> ByteAt(t, x) == ByteAt(s, x)
  }

  /** `buf` stands at pos; every other byte that existed is unchanged; blocks lo..hi, and no others, were made. */
  ghost predicate Written(s: Image, t: Image, pos: int, buf: seq<int>, lo: int, hi: int) {
    && ImageOk(s) && ImageOk(t) && 0 <= pos && pos + |buf| <= LIMIT
    && BlocksIn(s, t, lo, hi)
    && (forall k :: 0 <= k < |buf| ==> Holds(t, pos, buf, k))
    && (forall x :: 0 <= x < LIMIT && !(pos <= x < pos + |buf|) ==> Same(s, t, x))
  }

  lemma BytePlace(i: int, off: int, x: int)
    requires 0 <= off < PAGE && x == i * PAGE + off
    ensures x / PAGE == i && x % PAGE == off
  {}

  /** Copying into one block, fresh or not. */
  lemma WrittenBlock(s: Image, u: Image, i: int, off: int, pos: int, data: seq<int>)
    requires ImageOk(s) && ImageOk(u) && 0 <= i < BLOCKS && 0 <= off < PAGE
    requires off + |data| <= PAGE && pos == i * PAGE + off
    requires u[i].Some? && (s[i].Some? ==> u[i] == s[i]) && BlocksIn(s, u, i, i + 1)
    ensures BlockOk(u, i)
    ensures Written(s, u[i := Some(Splice(u[i].value, off, data))], pos, data, i, i + 1)
  {
    assert BlockOk(u, i);
    var t := u[i := Some(Splice(u[i].value, off, data))];
    forall j | 0 <= j < BLOCKS ensures BlockOk(t, j) { assert BlockOk(u, j); }
    var end := i + 1;
    forall j | 0 <= j < BLOCKS ensures BlockKept(s, t, i, end, j) { assert BlockKept(s, u, i, end, j); }
    forall k | 0 <= k < |data| ensures Holds(t, pos, data, k) { BytePlace(i, off + k, pos + k); }
    forall x | 0 <= x < LIMIT && !(pos <= x < pos + |data|) ensures Same(s, t, x) {
      assert BlockKept(s, u, i, i + 1, x / PAGE) && BlockOk(s, x / PAGE) && BlockOk(t, x / PAGE);
      if x / PAGE == i { assert x == i * PAGE + x % PAGE; }
    }
  }

  /** A further piece behind what has been written. */
  lemma WrittenMore(s: Image, u: Image, t: Image, pos: int, a: seq<int>, b: seq<int>, lo: int, mid: int, hi: int)
    requires Written(s, u, pos, a, lo, mid) && Written(u, t, pos + |a|, b, mid, hi) && lo <= mid <= hi
    ensures Written(s, t, pos, a + b, lo, hi)
  {
    var c := a + b;
    forall i | 0 <= i < BLOCKS ensures BlockKept(s, t, lo, hi, i) {
      assert BlockKept(s, u, lo, mid, i) && BlockKept(u, t, mid, hi, i);
    }
    forall k | 0 <= k < |c| ensures Holds(t, pos, c, k) {
      if k < |a| {
        assert Holds(u, pos, a, k) && Same(u, t, pos + k);
      } else {
        assert Holds(t, pos + |a|, b, k - |a|);
      }
    }
    forall x | 0 <= x < LIMIT && !(pos <= x < pos + |c|) ensures Same(s, t, x) {
      assert Same(s, u, x) && Same(u, t, x);
    }
  }

  lemma WrittenNothing(s: Image, pos: int, i: int)
    requires ImageOk(s) && 0 <= pos <= LIMIT
    ensures Written(s, s, pos, [], i, i)
  {
    forall j | 0 <= j < BLOCKS ensures BlockKept(s, s, i, i, j) {}
    forall x | 0 <= x < LIMIT ensures Same(s, s, x) {}
  }

  // ---------- how many blocks are missing ----------

  function Holes(s: Image, lo: int, hi: int): (n: nat)
    requires 0 <= lo <= hi <= |s|
    decreases hi - lo
  {
    if lo == hi then 0 else Holes(s, lo, hi - 1) + if s[hi - 1].None? then 1 else 0
  }

  lemma {:induction false} HolesGrow(s: Image, lo: int, mid: int, hi: int)
    requires 0 <= lo <= mid <= hi <= |s|
    ensures Holes(s, lo, mid) <= Holes(s, lo, hi)
    decreases hi
  {
    if mid < hi { HolesGrow(s, lo, mid, hi - 1); }
  }

  /** As many as there are blocks without a page. */
  lemma {:induction false} HolesCounted(s: Image, lo: int, hi: int)
    requires 0 <= lo <= hi <= |s|
    ensures Holes(s, lo, hi) == |HoleSet(s, lo, hi)|
    decreases hi
  {
    if lo < hi {
      HolesCounted(s, lo, hi - 1);
      if s[hi - 1].None? {
        assert HoleSet(s, lo, hi) == HoleSet(s, lo, hi - 1) + {hi - 1};
        OneAdded(HoleSet(s, lo, hi - 1), hi - 1);
      } else {
        assert HoleSet(s, lo, hi) == HoleSet(s, lo, hi - 1);
      }
    }
  }

  function HoleSet(s: Image, lo: int, hi: int): set<int>
    requires 0 <= lo <= hi <= |s|
  {
    set i | lo <= i < hi && s[i].None?
  }

  // ---------- what a read should return ----------

  function Min(a: int, b: int): (r: int)
    ensures r <= a && r <= b && (r == a || r == b)
  {
    if a < b then a else b
  }

  /** Length of a correct read: never beyond the end of the file. */
  function ReadLength(size: int, pos: int, buflen: int): int {
    if pos >= size then 0 else Min(buflen, size - pos)
  }

  const TWO31 := 0x8000_0000

  /** The cast of a 32-bit sum to int. */
  function AsInt(x: int): (r: int)
    requires 0 <= x
    ensures -TWO31 <= r < TWO31 && (x < TWO31 ==> r == x) && (TWO31 <= x < TWO32 ==> r < 0)
    ensures TWO32 <= x < TWO32 + TWO31 ==> r == x - TWO32
  {
    var w := x % TWO32;
    if w < TWO31 then w else w - TWO32
  }

  /** The first partial block is limited by the file size, not by what is left of it. */
  predicate PastFirst(size: int, pos: int, buflen: int) {
    pos < size && pos % PAGE != 0 && pos + Min(PAGE - pos % PAGE, buflen) > size
  }

  /** The limit on the last partial block is lost when the end of the request looks negative or wraps. */
  predicate Overruns(size: int, pos: int, buflen: int) {
    pos < size && !PastFirst(size, pos, buflen) && pos + buflen >= TWO31 && size % PAGE != 0
  }

  /** Length the code returns. */
  function CodeLength(size: int, pos: int, buflen: int): int {
    if PastFirst(size, pos, buflen) then Min(Min(PAGE - pos % PAGE, buflen), size)
    else if Overruns(size, pos, buflen) then buflen
    else ReadLength(size, pos, buflen)
  }

  /** The read is right if and only if it starts beyond the end, or it does not leave the file in a first partial page
      and either its end fits an int or the file ends on a page boundary. */
  lemma ReadIsRight(size: int, pos: int, buflen: int)
    requires 0 <= size <= LIMIT && 0 <= pos && 0 <= buflen
    ensures CodeLength(size, pos, buflen) == ReadLength(size, pos, buflen)
       <==> pos >= size || (&& (pos % PAGE == 0 || pos + Min(PAGE - pos % PAGE, buflen) <= size)
                            && (pos + buflen < TWO31 || size % PAGE == 0))
  {}

  /** A file of ten bytes, read from its fifth byte on, returns ten bytes. */
  lemma ReadBeyondEnd()
    ensures ReadLength(10, 5, 100) == 5 && CodeLength(10, 5, 100) == 10
  {}

  /** A file of ten bytes, read with a length of 2^31, returns 2^31 bytes. */
  lemma ReadOverrun()
    ensures ReadLength(10, 0, TWO31) == 10 && CodeLength(10, 0, TWO31) == TWO31
  {}

  ghost predicate Returns(s: Image, pos: int, out: seq<int>) {
    && ImageOk(s) && 0 <= pos && pos + |out| <= LIMIT
    && forall k :: 0 <= k < |out| ==> ReturnsAt(s, pos, out, k)
  }

  predicate ReturnsAt(s: Image, pos: int, out: seq<int>, k: int)
    requires ImageOk(s) && 0 <= pos && pos + |out| <= LIMIT && 0 <= k < |out|
  {
    assert BlockOk(s, (pos + k) / 4096);
    out[k] == match s[(pos + k) / 4096] case None => 0 case Some(block) => block[(pos + k) % 4096]
  }

  /** Every byte of a read is the byte of its block, or zero where there is no block. */
  lemma ReadExact(s: Image, pos: int, out: seq<int>, k: int)
    requires Returns(s, pos, out) && 0 <= k < |out|
    ensures s[(pos + k) / 4096].None? ==> out[k] == 0
    ensures s[(pos + k) / 4096].Some? ==>
              |s[(pos + k) / 4096].value| == 4096 && out[k] == s[(pos + k) / 4096].value[(pos + k) % 4096]
  {
    assert ReturnsAt(s, pos, out, k) && BlockOk(s, (pos + k) / 4096);
  }

  /** What a copy or a clearing that runs on behind a block yields. */
  function Behind(n: nat, hole: bool, behind: nat -> int): (r: seq<int>)
    ensures |r| == n && forall j :: 0 <= j < n ==> r[j] == if hole then 0 else behind(j)
  {
    seq(n, j requires 0 <= j => if hole then 0 else behind(j))
  }

  /** The read ran on behind the last block of the file: first the whole of that, then zeroes if there is no such block,
      or else whatever memory holds behind it. */
  ghost predicate RanOn(s: Image, pos: int, size: int, out: seq<int>, behind: nat -> int) {
    && |s| == BLOCKS && 0 <= size / 4096 < BLOCKS
    && var inside := (size / 4096 + 1) * 4096 - pos;
       && 0 <= inside <= |out| && Returns(s, pos, out[..inside])
       && forall k :: inside <= k < |out| ==> out[k] == if s[size / 4096].None? then 0 else behind(k - inside)
  }

  lemma ReturnsMore(s: Image, pos: int, a: seq<int>, b: seq<int>)
    requires Returns(s, pos, a) && Returns(s, pos + |a|, b)
    ensures Returns(s, pos, a + b)
  {
    var c := a + b;
    forall k | 0 <= k < |c| ensures ReturnsAt(s, pos, c, k) {
      if k < |a| { assert ReturnsAt(s, pos, a, k); } else { assert ReturnsAt(s, pos + |a|, b, k - |a|); }
    }
  }

  // ---------- progress of a write ----------

  /** n bytes are written, reaching block i; each missing block on the way took one page. */
  ghost predicate Progress(s: Image, t: Image, pos: int, buf: seq<int>, n: int, lo: int, i: int, used: int) {
    && 0 <= n <= |buf| && 0 <= lo <= i <= BLOCKS
    && Written(s, t, pos, buf[..n], lo, i) && used == Holes(s, lo, i)
  }

  lemma ProgressStep(s: Image, u: Image, t: Image, pos: int, buf: seq<int>, n: int, next: int, lo: int, i: int,
                     used: int)
    requires Progress(s, u, pos, buf, n, lo, i, used) && i < BLOCKS && n <= next <= |buf|
    requires Written(u, t, pos + n, buf[n..next], i, i + 1)
    ensures Progress(s, t, pos, buf, next, lo, i + 1, used + if s[i].None? then 1 else 0)
  {
    WrittenMore(s, u, t, pos, buf[..n], buf[n..next], lo, i, i + 1);
    assert buf[..n] + buf[n..next] == buf[..next];
  }

  /** Blocks that have not been reached are what they were. */
  lemma Unreached(s: Image, u: Image, pos: int, buf: seq<int>, n: int, lo: int, i: int, used: int)
    requires Progress(s, u, pos, buf, n, lo, i, used) && i < BLOCKS
    ensures u[i] == s[i]
  {
    assert BlockKept(s, u, lo, i, i);
  }

  // ---------- the file ----------

  lemma Bounds(pos: int, len: int)
    requires 0 <= pos && 0 <= len && pos + len <= LIMIT
    ensures 0 <= pos / PAGE <= PagesUp(pos + len) <= BLOCKS
    ensures pos % PAGE != 0 || len > 0 ==> pos / PAGE < PagesUp(pos + len)
  {}

  /** Block i is the next one to write, or the one behind the last. */
  predicate Meets(pos: int, len: int, n: int, i: int) {
    if n < len then pos + n == i * PAGE else n == len && i == PagesUp(pos + len)
  }

  lemma MeetsNext(pos: int, len: int, n: int, i: int)
    requires 0 <= pos && 0 <= n < len && Meets(pos, len, n, i)
    ensures i < PagesUp(pos + len)
    ensures n + PAGE <= len ==> Meets(pos, len, n + PAGE, i + 1)
    ensures n + PAGE > len ==> i + 1 == PagesUp(pos + len)
  {}

  class File {
    var size: int
    var blocks: seq<array?<int>>
    var blockCount: int
    var pagesLeft: int              // pages that the kernel's allocator can still hand out
    ghost var image: Image

    ghost function Store(): set<object>
      reads this
    {
      set i | 0 <= i < |blocks| && blocks[i] != null :: blocks[i]
    }

    predicate Distinct(i: int, j: int)
      requires 0 <= i < |blocks| && 0 <= j < |blocks|
      reads this
    {
      blocks[i] == null || blocks[i] != blocks[j]
    }

    ghost predicate Matches(i: int)
      requires 0 <= i < |blocks| && 0 <= i < |image|
      reads this, blocks[i]
    {
      if blocks[i] == null then image[i].None? else blocks[i].Length == PAGE && image[i] == Some(blocks[i][..])
    }

    ghost predicate Valid()
      reads this, Store()
    {
      && |blocks| == BLOCKS && |image| == BLOCKS && 0 <= size <= LIMIT && 0 <= pagesLeft
      && (forall i :: 0 <= i < BLOCKS ==> Matches(i))
      && (forall i, j :: 0 <= i < j < BLOCKS ==> Distinct(i, j))
    }

    /** An empty file. */
    constructor (pages: nat)
      ensures Valid() && size == 0 && blockCount == 0 && pagesLeft == pages && Store() == {}
      ensures forall i :: 0 <= i < BLOCKS ==> image[i].None?
    {
      size, blockCount, pagesLeft := 0, 0, pages;
      blocks := seq(BLOCKS, _ => null);
      image := seq(BLOCKS, _ => None);
      new;
      assert forall i :: 0 <= i < BLOCKS ==> Matches(i);
    }

    lemma ValidImage()
      requires Valid()
      ensures ImageOk(image)
    {
      forall i | 0 <= i < BLOCKS ensures BlockOk(image, i) { assert Matches(i); }
    }

    /** The block, newly allocated if need be; fresh blocks contain anything. Null when there is no page left. */
    method BlockOrNew(i: int) returns (b: array?<int>)
      requires Valid() && 0 <= i < BLOCKS
      modifies `blocks, `blockCount, `pagesLeft, `image
      ensures Valid() && b == blocks[i] && fresh(Store() - old(Store()))
      ensures old(blocks[i]) != null ==>
                image == old(image) && blockCount == old(blockCount) && pagesLeft == old(pagesLeft)
      ensures old(blocks[i]) == null ==> blockCount == old(blockCount) + 1
      ensures b == null <==> old(blocks[i]) == null && old(pagesLeft) == 0
      ensures b == null ==> image == old(image) && pagesLeft == 0
      ensures old(blocks[i]) == null && b != null ==>
                pagesLeft == old(pagesLeft) - 1 && image[i].Some? && image == old(image)[i := image[i]]
    {
      b := blocks[i];
      if b == null {
        if pagesLeft > 0 {
          b := new int[PAGE];
          pagesLeft := pagesLeft - 1;
          image := image[i := Some(b[..])];
        }
        blocks := blocks[i := b];
        blockCount := blockCount + 1;
        forall j | 0 <= j < BLOCKS ensures Matches(j) { assert old(Matches(j)); }
        forall j, k | 0 <= j < k < BLOCKS ensures Distinct(j, k) { assert old(Distinct(j, k)); }
      }
    }

    /** memcpy into block i. */
    method CopyInto(i: int, off: int, data: seq<int>)
      requires Valid() && 0 <= i < BLOCKS && blocks[i] != null && 0 <= off && off + |data| <= PAGE
      modifies blocks[i], `image
      ensures Valid() && old(image)[i].Some? && |old(image)[i].value| == PAGE
      ensures image == old(image)[i := Some(Splice(old(image)[i].value, off, data))]
    {
      assert Matches(i);
      var b := blocks[i];
      ghost var before := b[..];
      var k := 0;
      while k < |data|
        invariant 0 <= k <= |data|
        invariant b[..] == Splice(before, off, data[..k])
        modifies b
      {
        b[off + k] := data[k];
        k := k + 1;
      }
      assert data[..k] == data;
      image := image[i := Some(b[..])];
      forall j | 0 <= j < BLOCKS ensures Matches(j) {
        assert old(Matches(j));
        if j < i { assert old(Distinct(j, i)); } else if i < j { assert old(Distinct(i, j)); }
      }
      forall j, k | 0 <= j < k < BLOCKS ensures Distinct(j, k) { assert old(Distinct(j, k)); }
    }

    /** One block's share of a write. */
    method WritePiece(i: int, off: int, pos: int, data: seq<int>) returns (ok: bool)
      requires Valid() && 0 <= i < BLOCKS && 0 <= off < PAGE && off + |data| <= PAGE && pos == i * PAGE + off
      modifies this, Store()
      ensures Valid() && fresh(Store() - old(Store())) && size == old(size)
      ensures ok <==> old(image)[i].Some? || old(pagesLeft) > 0
      ensures ok ==> Written(old(image), image, pos, data, i, i + 1)
      ensures ok ==> pagesLeft == old(pagesLeft) - if old(image)[i].None? then 1 else 0
      ensures !ok ==> image == old(image) && pagesLeft == 0
      ensures blockCount == old(blockCount) + if old(image)[i].None? then 1 else 0
    {
      ghost var s := image;
      ValidImage();
      assert Matches(i);
      var b := BlockOrNew(i);
      if b == null { return false; }
      ghost var u := image;
      ValidImage();
      assert Matches(i);
      ghost var end := i + 1;
      forall j | 0 <= j < BLOCKS ensures BlockKept(s, u, i, end, j) {}
      CopyInto(i, off, data);
      WrittenBlock(s, u, i, off, pos, data);
      ok := true;
    }

    ghost predicate Going(s: Image, p0: int, c0: int, pos: int, buf: seq<int>, n: int, lo: int, i: int)
      reads this
    {
      Progress(s, image, pos, buf, n, lo, i, p0 - pagesLeft) && blockCount == c0 + p0 - pagesLeft
    }

    /** Block i could not be had. */
    ghost predicate Stopped(s: Image, p0: int, c0: int, pos: int, buf: seq<int>, n: int, lo: int, i: int, hi: int)
      reads this
    {
      && Progress(s, image, pos, buf, n, lo, i, p0) && pagesLeft == 0 && blockCount == c0 + p0 + 1
      && 0 <= lo <= hi <= |s| && p0 < Holes(s, lo, hi) && (pos + n) / PAGE == i
    }

    method WriteNext(pos: int, buf: seq<int>, n: int, next: int, i: int, off: int,
                     ghost s: Image, ghost p0: int, ghost c0: int, ghost lo: int, ghost hi: int)
      returns (ok: bool)
      requires Valid() && Going(s, p0, c0, pos, buf, n, lo, i) && i < hi <= BLOCKS
      requires n <= next <= |buf| && 0 <= off < PAGE && off + next - n <= PAGE && pos + n == i * PAGE + off
      modifies this, Store()
      ensures Valid() && fresh(Store() - old(Store())) && size == old(size)
      ensures ok ==> Going(s, p0, c0, pos, buf, next, lo, i + 1)
      ensures !ok ==> Stopped(s, p0, c0, pos, buf, n, lo, i, hi)
    {
      ghost var u, used := image, p0 - pagesLeft;
      Unreached(s, u, pos, buf, n, lo, i, used);
      ok := WritePiece(i, off, pos + n, buf[n..next]);
      if ok {
        ProgressStep(s, u, image, pos, buf, n, next, lo, i, used);
      } else {
        BytePlace(i, off, pos + n);
        HolesGrow(s, lo, i + 1, hi);
      }
    }

    /** The blocks of a write, one after the other: a first partial one, whole ones, and a last partial one. */
    method WriteBlocks(pos: int, buf: seq<int>, ghost s: Image, ghost p0: int, ghost c0: int, ghost lo: int,
                       ghost hi: int)
      returns (ret: int, nwrite: int)
      requires Valid() && 0 <= pos && pos + |buf| <= LIMIT && s == image && p0 == pagesLeft && c0 == blockCount
      requires lo == pos / PAGE && hi == PagesUp(pos + |buf|)
      modifies this, Store()
      ensures Valid() && fresh(Store() - old(Store())) && size == old(size)
      ensures ret == 0 || ret == EIO
      ensures ret == 0 ==> nwrite == |buf| && Going(s, p0, c0, pos, buf, nwrite, lo, hi)
      ensures ret == EIO ==> Stopped(s, p0, c0, pos, buf, nwrite, lo, (pos + nwrite) / PAGE, hi)
    {
      Bounds(pos, |buf|);
      ValidImage();
      WrittenNothing(s, pos, lo);
      assert buf[..0] == [];
      var i, off := pos / PAGE, pos % PAGE;
      nwrite := 0;
      if off != 0 {
        nwrite := if PAGE - off > |buf| then |buf| else PAGE - off;
        var ok := WriteNext(pos, buf, 0, nwrite, i, off, s, p0, c0, lo, hi);
        if !ok { return EIO, 0; }
        i := i + 1;
      }
      ret, nwrite := WriteRest(pos, buf, nwrite, i, s, p0, c0, lo, hi);
    }

    /** From a block boundary on. */
    method WriteRest(pos: int, buf: seq<int>, start: int, first: int,
                     ghost s: Image, ghost p0: int, ghost c0: int, ghost lo: int, ghost hi: int)
      returns (ret: int, nwrite: int)
      requires Valid() && 0 <= pos && pos + |buf| <= LIMIT && 0 <= lo <= hi <= BLOCKS && hi == PagesUp(pos + |buf|)
      requires Going(s, p0, c0, pos, buf, start, lo, first) && Meets(pos, |buf|, start, first)
      modifies this, Store()
      ensures Valid() && fresh(Store() - old(Store())) && size == old(size)
      ensures ret == 0 || ret == EIO
      ensures ret == 0 ==> nwrite == |buf| && Going(s, p0, c0, pos, buf, nwrite, lo, hi)
      ensures ret == EIO ==> Stopped(s, p0, c0, pos, buf, nwrite, lo, (pos + nwrite) / PAGE, hi)
    {
      var i := first;
      nwrite := start;
      while nwrite + PAGE <= |buf|
        invariant Valid() && fresh(Store() - old(Store())) && size == old(size)
        invariant Going(s, p0, c0, pos, buf, nwrite, lo, i) && Meets(pos, |buf|, nwrite, i)
      {
        MeetsNext(pos, |buf|, nwrite, i);
        var next := nwrite + PAGE;
        var ok := WriteNext(pos, buf, nwrite, next, i, 0, s, p0, c0, lo, hi);
        if !ok { return EIO, nwrite; }
        nwrite, i := next, i + 1;
      }
      if nwrite < |buf| {
        MeetsNext(pos, |buf|, nwrite, i);
        var ok := WriteNext(pos, buf, nwrite, |buf|, i, 0, s, p0, c0, lo, hi);
        if !ok { return EIO, nwrite; }
        nwrite := |buf|;
      }
      ret := 0;
    }

    /**
     ramfs_write_inode inside the direct blocks. It writes exactly the bytes [pos, pos + |buf|) and makes exactly the
     blocks they need, or stops with EIO, exactly when the allocator has fewer pages than blocks are missing. The
     size grows to cover the whole request in either case.
     */
    method Write(pos: int, buf: seq<int>) returns (ret: int, nwrite: int)
      requires Valid() && 0 <= pos && pos + |buf| <= LIMIT
      modifies this, Store()
      ensures Valid() && fresh(Store() - old(Store()))
      ensures size == if pos + |buf| > old(size) then pos + |buf| else old(size)
      ensures 0 <= pos / PAGE <= PagesUp(pos + |buf|) <= BLOCKS
      ensures ret == 0 || ret == EIO
      ensures ret == 0 <==> old(pagesLeft) >= Holes(old(image), pos / PAGE, PagesUp(pos + |buf|))
      ensures ret == 0 ==> nwrite == |buf| && Written(old(image), image, pos, buf, pos / PAGE, PagesUp(pos + |buf|))
      ensures ret == 0 ==> pagesLeft == old(pagesLeft) - Holes(old(image), pos / PAGE, PagesUp(pos + |buf|))
      ensures ret == 0 ==> blockCount == old(blockCount) + Holes(old(image), pos / PAGE, PagesUp(pos + |buf|))
      ensures ret == EIO ==>
                0 <= nwrite <= |buf| && pagesLeft == 0 && blockCount == old(blockCount) + old(pagesLeft) + 1
      ensures ret == EIO ==> Written(old(image), image, pos, buf[..nwrite], pos / PAGE, (pos + nwrite) / PAGE)
    {
      ghost var s, lo, hi := image, pos / PAGE, PagesUp(pos + |buf|);
      Bounds(pos, |buf|);
      ret, nwrite := WriteBlocks(pos, buf, s, pagesLeft, blockCount, lo, hi);
      assert buf[..|buf|] == buf;
      Extend(pos + |buf|);
    }

    method Extend(end: int)
      requires Valid() && 0 <= end <= LIMIT
      modifies `size
      ensures Valid() && size == if end > old(size) then end else old(size)
    {
      if end > size {
        size := end;
        forall j | 0 <= j < BLOCKS ensures Matches(j) { assert old(Matches(j)); }
        forall j, k | 0 <= j < k < BLOCKS ensures Distinct(j, k) { assert old(Distinct(j, k)); }
      }
    }

    /** n bytes of block i; a block that does not exist reads as zeroes. */
    method ReadPiece(i: int, off: int, n: int, ghost pos: int) returns (data: seq<int>)
      requires Valid() && 0 <= i < BLOCKS && 0 <= off && 0 <= n && off + n <= PAGE && pos == i * PAGE + off
      ensures |data| == n && Returns(image, pos, data)
    {
      ValidImage();
      assert Matches(i);
      if blocks[i] != null {
        data := blocks[i][off..off + n];
      } else {
        data := seq(n, _ => 0);
      }
      forall k | 0 <= k < n ensures ReturnsAt(image, pos, data, k) { BytePlace(i, off + k, pos + k); }
    }

    /**
     ramfs_read_inode inside the direct blocks: the file's bytes from pos on, holes as zeroes. Where the length overruns
     the file, its own bytes still come first; `behind` is what memory holds behind the last block.
     */
    method Read(pos: int, buflen: int, behind: nat -> int) returns (out: seq<int>)
      requires Valid() && 0 <= pos < TWO31 && 0 <= buflen < TWO32
      ensures |out| == CodeLength(size, pos, buflen)
      ensures pos >= size ==> |out| == 0
      ensures pos < size && pos % 4096 != 0 && pos + Min(4096 - pos % 4096, buflen) > size ==>
                |out| == Min(Min(4096 - pos % 4096, buflen), size)
      ensures pos < size && (pos % 4096 == 0 || pos + Min(4096 - pos % 4096, buflen) <= size) ==>
                |out| == if pos + buflen >= 0x8000_0000 && size % 4096 != 0 then buflen else Min(buflen, size - pos)
      ensures pos < size && !Overruns(size, pos, buflen) ==> Returns(image, pos, out)
      ensures pos < size && !Overruns(size, pos, buflen) ==>
                forall k :: 0 <= k < |out| ==>
                  if image[(pos + k) / 4096].None? then out[k] == 0
                  else (pos + k) % 4096 < |image[(pos + k) / 4096].value| &&
                       out[k] == image[(pos + k) / 4096].value[(pos + k) % 4096]
      ensures Overruns(size, pos, buflen) ==> RanOn(image, pos, size, out, behind)
    {
      out := ReadBytes(pos, buflen, behind);
      if pos < size && !Overruns(size, pos, buflen) {
        forall k | 0 <= k < |out|
          ensures if image[(pos + k) / 4096].None? then out[k] == 0
                  else (pos + k) % 4096 < |image[(pos + k) / 4096].value| &&
                       out[k] == image[(pos + k) / 4096].value[(pos + k) % 4096]
        {
          ReadExact(image, pos, out, k);
        }
      }
    }

    /** A first partial block, then the rest. */
    method ReadBytes(pos: int, buflen: int, behind: nat -> int) returns (out: seq<int>)
      requires Valid() && 0 <= pos < TWO31 && 0 <= buflen < TWO32
      ensures |out| == CodeLength(size, pos, buflen)
      ensures pos < size && !Overruns(size, pos, buflen) ==> Returns(image, pos, out)
      ensures Overruns(size, pos, buflen) ==> RanOn(image, pos, size, out, behind)
    {
      out := [];
      if pos >= size { return; }
      ValidImage();
      var i, off := pos / PAGE, pos % PAGE;
      if off != 0 {
        var n := PAGE - off;
        if n > buflen { n := buflen; }
        if AsInt(n) > size { n := size; }
        out := ReadPiece(i, off, n, pos);
        i := i + 1;
      }
      out := ReadRest(pos, buflen, out, i, behind);
    }

    /** From a block boundary on: whole blocks, then what is left of the request or of the file. */
    method ReadRest(pos: int, buflen: int, start: seq<int>, first: int, behind: nat -> int) returns (out: seq<int>)
      requires Valid() && 0 <= pos < size && Returns(image, pos, start) && |start| <= buflen < TWO32 && |start| <= PAGE
      requires |start| < buflen && pos + |start| < size ==> pos + |start| == first * PAGE
      ensures pos + |start| >= size ==> out == start
      ensures pos + |start| < size && !(pos + buflen >= TWO31 && size % PAGE != 0) ==>
                |out| == Min(buflen, size - pos) && Returns(image, pos, out)
      ensures pos + |start| < size && pos + buflen >= TWO31 && size % PAGE != 0 ==>
                |out| == buflen && RanOn(image, pos, size, out, behind)
    {
      out := start;
      var i := first;
      while |out| + PAGE <= buflen && AsInt(pos + |out| + PAGE) <= size
        invariant Returns(image, pos, out) && |start| <= |out| <= buflen && (pos + |out| <= size || out == start)
        invariant |out| < buflen && pos + |out| < size ==> pos + |out| == i * PAGE
        invariant out == start || (pos + |out|) % PAGE == 0
        invariant pos + |start| >= size ==> out == start
      {
        var data := ReadPiece(i, 0, PAGE, pos + |out|);
        ReturnsMore(image, pos, out, data);
        out := out + data;
        i := i + 1;
      }
      if |out| < buflen && AsInt(pos + |out|) < size {
        out := ReadTail(pos, buflen, out, i, behind);
      }
    }

    /** The partial tail. */
    method ReadTail(pos: int, buflen: int, start: seq<int>, i: int, behind: nat -> int) returns (out: seq<int>)
      requires Valid() && 0 <= pos && Returns(image, pos, start) && |start| < buflen < TWO32
      requires pos + |start| == i * PAGE && pos + |start| < size
      requires (|start| + PAGE > buflen || pos + |start| + PAGE > size)
      ensures pos + buflen < TWO31 ==> |out| == Min(buflen, size - pos) && Returns(image, pos, out)
      ensures pos + buflen >= TWO31 ==> |out| == buflen && RanOn(image, pos, size, out, behind)
    {
      var n := buflen - |start|;
      if AsInt(pos + |start| + n) > size { n := size - (pos + |start|); }
      var inside := if n > PAGE then PAGE else n;
      var data := ReadPiece(i, 0, inside, pos + |start|);
      ReturnsMore(image, pos, start, data);
      out := start + data;
      ghost var good := out;
      if n > PAGE {
        var junk := Behind(n - PAGE, blocks[i] == null, behind);
        out := out + junk;
        assert out[|good|..] == junk;
      }
      if pos + buflen >= TWO31 {
        assert i == size / PAGE && |good| == (size / PAGE + 1) * PAGE - pos;
        assert out[..|good|] == good;
        assert Matches(i);
        forall k | |good| <= k < |out| ensures out[k] == if image[i].None? then 0 else behind(k - |good|) {
          assert out[k] == out[|good|..][k - |good|];
        }
      }
    }
  }

  /** Reading where a write has just been gives back what was written. */
  lemma ReadBack(s: Image, t: Image, pos: int, buf: seq<int>, lo: int, hi: int, from: int, out: seq<int>)
    requires Written(s, t, pos, buf, lo, hi) && pos <= from && from + |out| <= pos + |buf| && Returns(t, from, out)
    ensures out == buf[from - pos..from - pos + |out|]
  {
    forall k | 0 <= k < |out| ensures out[k] == buf[from - pos + k] {
      assert ReturnsAt(t, from, out, k) && Holds(t, pos, buf, from - pos + k);
    }
  }

  /** Reading next to a write gives what it gave before, as far as the bytes existed. */
  lemma ReadElsewhere(s: Image, t: Image, pos: int, buf: seq<int>, lo: int, hi: int, from: int, out: seq<int>,
                      was: seq<int>)
    requires Written(s, t, pos, buf, lo, hi) && (from + |out| <= pos || pos + |buf| <= from)
    requires Returns(t, from, out) && Returns(s, from, was) && |was| == |out|
    requires forall x :: from <= x < from + |out| ==> ByteAt(s, x).Some?
    ensures out == was
  {
    forall k | 0 <= k < |out| ensures out[k] == was[k] {
      assert ReturnsAt(t, from, out, k) && ReturnsAt(s, from, was, k) && Same(s, t, from + k);
    }
  }
}
