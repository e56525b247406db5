/**
 Two-level page tables over physical frames, as a value: the walk, the ways in which
 pagedir_alloc and pagedir_get_or_new extend the tables, and the owner of every frame.
 */
module PageTables {
  import opened Options
  import opened PageWords

  /** What an allocated frame is used for. One role per frame: nothing is shared. */
  datatype Role = Dir | Table(dir: int, i: int) | Data(dir: int, i: int, j: int)

  /** kdir is the kernel's own page directory; frames from edge on are free. */
  datatype Mem = Mem(phys: seq<Frame>, edge: int, kdir: Frame, owner: map<int, Role>)

  const KERN_PDE := 768       // KERN_OFF >> 22
  const PDE_FLAGS := 0x1F     // present, writable, user, writethrough, dontcache
  const USER_BASE := 0x40_0000
  const KERN_OFF := 0xC000_0000

  predicate UserPage(page: int) { WORDS <= page < KERN_PDE * WORDS }

  function PdeOf(page: int): int { page / WORDS }

  function PteOf(page: int): int { page % WORDS }

  lemma PageParts(page: int)
    requires UserPage(page)
    ensures 1 <= PdeOf(page) < KERN_PDE && 0 <= PteOf(page) < WORDS
  {}

  lemma PageUnique(p: int, q: int)
    requires PdeOf(p) == PdeOf(q) && PteOf(p) == PteOf(q)
    ensures p == q
  {}

  // ---------- invariant ----------

  predicate FrameOk(m: Mem, f: int) { 0 <= f < |m.phys| && IsFrame(m.phys[f]) }

  predicate Allocated(m: Mem, f: int) { 0 < f < m.edge }

  /** Word k of frame f is empty, or it is usable from user code and names the frame that has this role. Tables are
      entered as present, writable, user, write-through and not cached. */
  predicate EntryOk(m: Mem, f: int, k: int, role: Role)
    requires FrameOk(m, f) && 0 <= k < WORDS
  {
    var e := Word(m.phys[f], k);
    e == 0 || (UserPresent(e) && e / PAGE in m.owner && m.owner[e / PAGE] == role && (role.Table? ==> e % PAGE == 0x1F))
  }

  /** Entry k belongs to the kernel: the first 4 MB, or an address from KERN_OFF on. */
  predicate KernelEntry(k: int) { k == 0 || KERN_PDE <= k < WORDS }

  predicate KernelSame(m: Mem, d: int, k: int)
    requires FrameOk(m, d) && IsFrame(m.kdir) && 0 <= k < WORDS
  {
    Word(m.phys[d], k) == Word(m.kdir, k)
  }

  ghost predicate DirOk(m: Mem, d: int)
    requires FrameOk(m, d) && IsFrame(m.kdir)
  {
    && (forall i :: 1 <= i < KERN_PDE ==> EntryOk(m, d, i, Table(d, i)))
    && (forall k :: KernelEntry(k) ==> KernelSame(m, d, k))
  }

  ghost predicate TableOk(m: Mem, f: int, d: int, i: int)
    requires FrameOk(m, f)
  {
    forall j :: 0 <= j < WORDS ==> EntryOk(m, f, j, Data(d, i, j))
  }

  ghost predicate Shape(m: Mem) {
    && 0 < m.edge <= |m.phys| <= 0x10_0000 && IsFrame(m.kdir)
    && (forall f :: 0 <= f < |m.phys| ==> FrameOk(m, f))
    && (forall f :: f in m.owner ==> Allocated(m, f))
  }

  ghost predicate RoleOk(m: Mem, f: int)
    requires f in m.owner && FrameOk(m, f) && IsFrame(m.kdir)
  {
    match m.owner[f]
    case Dir => DirOk(m, f)
    case Table(d, i) => TableOk(m, f, d, i)
    case Data(_, _, _) => true
  }

  ghost predicate Inv(m: Mem) {
    Shape(m) && forall f :: f in m.owner ==> FrameOk(m, f) && RoleOk(m, f)
  }

  ghost predicate IsDir(m: Mem, d: int) { d in m.owner && m.owner[d].Dir? }

  lemma OwnedFrame(m: Mem, f: int)
    requires Inv(m) && f in m.owner
    ensures Allocated(m, f) && FrameOk(m, f) && RoleOk(m, f)
  {}

  // ---------- the walk ----------

  /** The page-table entry of a page, 0 if there is none. */
  function PteAt(m: Mem, d: int, page: int): (e: int)
    requires FrameOk(m, d) && UserPage(page)
  {
    var pde := Word(m.phys[d], PdeOf(page));
    if pde == 0 || !FrameOk(m, pde / PAGE) then 0 else Word(m.phys[pde / PAGE], PteOf(page))
  }

  function Walk(m: Mem, d: int, page: int): (r: Option<int>)
    requires FrameOk(m, d) && UserPage(page)
  {
    var pte := PteAt(m, d, page);
    if pte == 0 then None else Some(pte / PAGE)
  }

  /** The frame a walk ends in belongs to that page of that directory and to nothing else. */
  lemma WalkOwner(m: Mem, d: int, page: int)
    requires Inv(m) && IsDir(m, d) && UserPage(page)
    ensures FrameOk(m, d)
    ensures Walk(m, d, page).Some? ==>
              var f := Walk(m, d, page).value;
              f in m.owner && m.owner[f] == Data(d, PdeOf(page), PteOf(page)) && Allocated(m, f) && FrameOk(m, f)
  {
    OwnedFrame(m, d);
    PageParts(page);
    var i, j := PdeOf(page), PteOf(page);
    assert EntryOk(m, d, i, Table(d, i));
    if Walk(m, d, page).Some? {
      var t := Word(m.phys[d], i) / PAGE;
      OwnedFrame(m, t);
      assert EntryOk(m, t, j, Data(d, i, j));
      OwnedFrame(m, Word(m.phys[t], j) / PAGE);
    }
  }

  /** Two pages, of one directory or of two, never share a frame. */
  lemma NoSharing(m: Mem, d: int, p: int, e: int, q: int)
    requires Inv(m) && IsDir(m, d) && IsDir(m, e) && UserPage(p) && UserPage(q)
    requires FrameOk(m, d) && FrameOk(m, e) && Walk(m, d, p).Some? && Walk(m, d, p) == Walk(m, e, q)
    ensures d == e && p == q
  {
    WalkOwner(m, d, p);
    WalkOwner(m, e, q);
    PageUnique(p, q);
  }

  /** Neither is a data page ever a page table or a directory, and no table serves two directory entries. */
  lemma KindsApart(m: Mem, d: int, p: int, e: int, q: int)
    requires Inv(m) && IsDir(m, d) && IsDir(m, e) && UserPage(p) && UserPage(q)
    requires FrameOk(m, d) && FrameOk(m, e) && Word(m.phys[e], PdeOf(q)) != 0
    ensures var t := Word(m.phys[e], PdeOf(q)) / PAGE;
            && t != d && (Walk(m, d, p).Some? ==> Walk(m, d, p).value != t && Walk(m, d, p).value != e)
            && (Word(m.phys[d], PdeOf(p)) != 0 && Word(m.phys[d], PdeOf(p)) / PAGE == t ==>
                  d == e && PdeOf(p) == PdeOf(q))
  {
    WalkOwner(m, d, p);
    TableOf(m, d, p);
    TableOf(m, e, q);
  }

  // ---------- changing the memory ----------

  predicate CanGrow(m: Mem) { 0 < m.edge < |m.phys| }

  /** A directory that maps nothing but the kernel. */
  function DirectoryFrame(kdir: Frame): (r: Frame)
    requires IsFrame(kdir)
    ensures IsFrame(r)
  {
    seq(PAGE, b requires 0 <= b < PAGE => if b < 4 || 4 * KERN_PDE <= b then kdir[b] else 0)
  }

  lemma DirectoryWord(kdir: Frame, k: int)
    requires IsFrame(kdir) && 0 <= k < WORDS
    ensures Word(DirectoryFrame(kdir), k) == if KernelEntry(k) then Word(kdir, k) else 0
  {}

  function NewDirectory(m: Mem): (r: Mem)
    requires CanGrow(m) && IsFrame(m.kdir)
  {
    m.(phys := m.phys[m.edge := DirectoryFrame(m.kdir)], edge := m.edge + 1, owner := m.owner[m.edge := Dir])
  }

  /** A fresh, empty page table for directory entry i. */
  function NewTable(m: Mem, d: int, i: int): (r: Mem)
    requires CanGrow(m) && FrameOk(m, d) && 0 <= i < WORDS && d != m.edge
  {
    var dir := PutWord(m.phys[d], i, Entry(m.edge, PDE_FLAGS));
    m.(phys := m.phys[m.edge := ZeroFrame()][d := dir], edge := m.edge + 1, owner := m.owner[m.edge := Table(d, i)])
  }

  /** A fresh page, whatever it contains, in entry j of table t. */
  function NewPage(m: Mem, t: int, j: int, mask: int): (r: Mem)
    requires CanGrow(m) && t in m.owner && m.owner[t].Table? && FrameOk(m, t) && 0 <= j < WORDS
  {
    var table := PutWord(m.phys[t], j, Entry(m.edge, UserPresentFlags(mask)));
    m.(phys := m.phys[t := table], edge := m.edge + 1,
       owner := m.owner[m.edge := Data(m.owner[t].dir, m.owner[t].i, j)])
  }

  /** New contents for one frame. */
  function Poke(m: Mem, f: int, frame: Frame): (r: Mem)
    requires 0 <= f < |m.phys|
  {
    m.(phys := m.phys[f := frame])
  }

  // ---------- each change keeps the invariant ----------

  /** One step: at most one frame gains a role, and every old frame keeps its role. */
  ghost predicate Later(m: Mem, r: Mem) {
    && |r.phys| == |m.phys| && m.edge <= r.edge && r.kdir == m.kdir
    && (forall f :: f in m.owner ==> SameRole(m, r, f))
  }

  predicate SameRole(m: Mem, r: Mem, f: int)
    requires f in m.owner
  {
    f in r.owner && r.owner[f] == m.owner[f]
  }

  lemma LaterTransitive(a: Mem, b: Mem, c: Mem)
    requires Later(a, b) && Later(b, c)
    ensures Later(a, c)
  {
    forall f | f in a.owner ensures SameRole(a, c, f) {
      assert SameRole(a, b, f) && SameRole(b, c, f);
    }
  }

  /** A frame whose bytes stand still keeps what it stood for when roles only accumulate. */
  lemma RoleOkLater(m: Mem, r: Mem, f: int)
    requires Inv(m) && f in m.owner && Later(m, r)
    requires FrameOk(r, f) && r.phys[f] == m.phys[f]
    ensures f in r.owner && r.owner[f] == m.owner[f] && RoleOk(r, f)
  {
    OwnedFrame(m, f);
    assert SameRole(m, r, f);
    match m.owner[f]
    case Dir =>
      forall i | 1 <= i < KERN_PDE ensures EntryOk(r, f, i, Table(f, i)) {
        EntryOkLater(m, r, f, i, Table(f, i));
      }
      forall k | KernelEntry(k) ensures KernelSame(r, f, k) { assert KernelSame(m, f, k); }
    case Table(d, i) =>
      forall j | 0 <= j < WORDS ensures EntryOk(r, f, j, Data(d, i, j)) {
        EntryOkLater(m, r, f, j, Data(d, i, j));
      }
    case Data(_, _, _) =>
  }

  lemma EntryOkLater(m: Mem, r: Mem, f: int, k: int, role: Role)
    requires FrameOk(m, f) && FrameOk(r, f) && 0 <= k < WORDS && Later(m, r)
    requires Word(r.phys[f], k) == Word(m.phys[f], k) && EntryOk(m, f, k, role)
    ensures EntryOk(r, f, k, role)
  {
    var t := Word(m.phys[f], k) / PAGE;
    if Word(m.phys[f], k) != 0 { assert SameRole(m, r, t); }
  }

  lemma EdgeIsFree(m: Mem)
    requires Shape(m)
    ensures forall f :: f in m.owner ==> f != 0 && f != m.edge
  {
    forall f | f in m.owner ensures f != 0 && f != m.edge { assert Allocated(m, f); }
  }

  /** Invariant of a change that gives frame m.edge a role and rewrites frame g. */
  lemma StepInv(m: Mem, r: Mem, g: int)
    requires Inv(m) && CanGrow(m) && |r.phys| == |m.phys| && r.kdir == m.kdir && r.edge == m.edge + 1
    requires m.edge in r.owner && r.owner == m.owner[m.edge := r.owner[m.edge]]
    requires forall f :: 0 <= f < |m.phys| && f != g && f != m.edge ==> r.phys[f] == m.phys[f]
    requires FrameOk(r, m.edge) && RoleOk(r, m.edge)
    requires FrameOk(r, g) && (g in r.owner ==> RoleOk(r, g))
    ensures Inv(r) && Later(m, r)
  {
    EdgeIsFree(m);
    forall f | f in m.owner ensures SameRole(m, r, f) {}
    forall f | 0 <= f < |r.phys| ensures FrameOk(r, f) { assert FrameOk(m, f); }
    forall f | f in r.owner ensures Allocated(r, f) { assert f in m.owner ==> Allocated(m, f); }
    forall f | f in r.owner ensures FrameOk(r, f) && RoleOk(r, f) {
      if f != m.edge && f != g {
        OwnedFrame(m, f);
        RoleOkLater(m, r, f);
      }
    }
  }

  lemma NewDirectoryInv(m: Mem)
    requires Inv(m) && CanGrow(m)
    ensures Inv(NewDirectory(m)) && Later(m, NewDirectory(m)) && IsDir(NewDirectory(m), m.edge)
  {
    var r, d := NewDirectory(m), m.edge;
    forall i | 1 <= i < KERN_PDE ensures EntryOk(r, d, i, Table(d, i)) { DirectoryWord(m.kdir, i); }
    forall k | KernelEntry(k) ensures KernelSame(r, d, k) { DirectoryWord(m.kdir, k); }
    StepInv(m, r, d);
  }

  lemma NewTableInv(m: Mem, d: int, i: int)
    requires Inv(m) && CanGrow(m) && IsDir(m, d) && 1 <= i < KERN_PDE
    ensures FrameOk(m, d) && d != m.edge && Inv(NewTable(m, d, i)) && Later(m, NewTable(m, d, i))
  {
    OwnedFrame(m, d);
    var r, t := NewTable(m, d, i), m.edge;
    EdgeIsFree(m);
    forall f | f in m.owner ensures SameRole(m, r, f) {}
    forall j | 0 <= j < WORDS ensures EntryOk(r, t, j, Data(d, i, j)) { ZeroWord(j); }
    EntryParts(t, PDE_FLAGS);
    forall k | 1 <= k < KERN_PDE ensures EntryOk(r, d, k, Table(d, k)) {
      PutGet(m.phys[d], i, Entry(t, PDE_FLAGS), k);
      if k != i { EntryOkLater(m, r, d, k, Table(d, k)); }
    }
    forall k | KernelEntry(k) ensures KernelSame(r, d, k) {
      assert KernelSame(m, d, k);
      PutGet(m.phys[d], i, Entry(t, PDE_FLAGS), k);
    }
    StepInv(m, r, d);
  }

  lemma NewPageInv(m: Mem, t: int, j: int, mask: int)
    requires Inv(m) && CanGrow(m) && t in m.owner && m.owner[t].Table? && 0 <= j < WORDS
    ensures FrameOk(m, t) && Inv(NewPage(m, t, j, mask)) && Later(m, NewPage(m, t, j, mask))
  {
    OwnedFrame(m, t);
    var r, p, flags := NewPage(m, t, j, mask), m.edge, UserPresentFlags(mask);
    var d, i := m.owner[t].dir, m.owner[t].i;
    EdgeIsFree(m);
    assert FrameOk(m, p);
    forall f | f in m.owner ensures SameRole(m, r, f) {}
    UserPresentFlagsSet(mask);
    EntryParts(p, flags);
    forall k | 0 <= k < WORDS ensures EntryOk(r, t, k, Data(d, i, k)) {
      PutGet(m.phys[t], j, Entry(p, flags), k);
      if k != j { EntryOkLater(m, r, t, k, Data(d, i, k)); }
    }
    StepInv(m, r, t);
  }

  /** Writing a data page, or a frame nobody owns, disturbs no table. */
  lemma PokeInv(m: Mem, f: int, frame: Frame)
    requires Inv(m) && 0 <= f < |m.phys| && IsFrame(frame) && (f in m.owner ==> m.owner[f].Data?)
    ensures Inv(Poke(m, f, frame)) && Later(m, Poke(m, f, frame))
  {
    var r := Poke(m, f, frame);
    forall g | g in m.owner ensures SameRole(m, r, g) {}
    forall g | 0 <= g < |r.phys| ensures FrameOk(r, g) { assert FrameOk(m, g); }
    forall g | g in r.owner ensures Allocated(r, g) { assert Allocated(m, g); }
    forall g | g in r.owner ensures FrameOk(r, g) && RoleOk(r, g) {
      OwnedFrame(m, g);
      if g != f { RoleOkLater(m, r, g); }
    }
  }

  // ---------- each change, seen through the walk ----------

  ghost predicate SameWalk(m: Mem, r: Mem, d: int, p: int)
    requires FrameOk(m, d) && FrameOk(r, d) && UserPage(p)
  {
    PteAt(r, d, p) == PteAt(m, d, p)
  }

  /** The walk depends on nothing but the directory and one of its tables. */
  lemma WalkFrame(m: Mem, r: Mem, d: int, p: int)
    requires Inv(m) && Inv(r) && IsDir(m, d) && UserPage(p) && |r.phys| == |m.phys|
    requires FrameOk(m, d) && FrameOk(r, d) && Word(r.phys[d], PdeOf(p)) == Word(m.phys[d], PdeOf(p))
    requires var t := Word(m.phys[d], PdeOf(p)) / PAGE;
             FrameOk(m, t) && FrameOk(r, t) ==> Word(r.phys[t], PteOf(p)) == Word(m.phys[t], PteOf(p))
    ensures SameWalk(m, r, d, p)
  {
    var t := Word(m.phys[d], PdeOf(p)) / PAGE;
    if 0 <= t < |m.phys| { assert FrameOk(m, t) && FrameOk(r, t); }
  }

  /** The table behind a directory entry, if there is one. */
  lemma TableOf(m: Mem, d: int, p: int)
    requires Inv(m) && IsDir(m, d) && UserPage(p)
    ensures FrameOk(m, d)
    ensures var e := Word(m.phys[d], PdeOf(p)); var t := e / PAGE;
            e != 0 ==> t in m.owner && m.owner[t] == Table(d, PdeOf(p)) && FrameOk(m, t) && Allocated(m, t)
  {
    OwnedFrame(m, d);
    PageParts(p);
    var i := PdeOf(p);
    assert EntryOk(m, d, i, Table(d, i));
    if Word(m.phys[d], i) != 0 { OwnedFrame(m, Word(m.phys[d], i) / PAGE); }
  }

  lemma NewDirectoryWalk(m: Mem, d: int, p: int)
    requires Inv(m) && CanGrow(m) && IsDir(m, d) && UserPage(p) && Inv(NewDirectory(m))
    ensures FrameOk(m, d) && FrameOk(NewDirectory(m), d) && SameWalk(m, NewDirectory(m), d, p)
    ensures FrameOk(NewDirectory(m), m.edge) && Walk(NewDirectory(m), m.edge, p).None?
  {
    TableOf(m, d, p);
    PageParts(p);
    DirectoryWord(m.kdir, PdeOf(p));
    EdgeIsFree(m);
    assert FrameOk(NewDirectory(m), d);
    if Word(m.phys[d], PdeOf(p)) != 0 { WalkFrame(m, NewDirectory(m), d, p); }
  }

  lemma NewTableWalk(m: Mem, d: int, i: int, e: int, p: int)
    requires Inv(m) && CanGrow(m) && IsDir(m, d) && 1 <= i < KERN_PDE && IsDir(m, e) && UserPage(p)
    requires FrameOk(m, d) && d != m.edge && Word(m.phys[d], i) == 0 && Inv(NewTable(m, d, i))
    ensures FrameOk(m, e) && FrameOk(NewTable(m, d, i), e) && SameWalk(m, NewTable(m, d, i), e, p)
  {
    var r, t := NewTable(m, d, i), m.edge;
    TableOf(m, e, p);
    PageParts(p);
    EdgeIsFree(m);
    EntryParts(t, PDE_FLAGS);
    assert FrameOk(r, e) && FrameOk(r, t);
    PutGet(m.phys[d], i, Entry(t, PDE_FLAGS), PdeOf(p));
    ZeroWord(PteOf(p));
    if e == d && i == PdeOf(p) {
      assert Walk(r, e, p).None? && Walk(m, e, p).None?;
    } else if Word(m.phys[e], PdeOf(p)) != 0 {
      assert Word(m.phys[e], PdeOf(p)) / PAGE != d;
      WalkFrame(m, r, e, p);
    }
  }

  lemma NewPageWalk(m: Mem, t: int, j: int, mask: int, e: int, p: int)
    requires Inv(m) && CanGrow(m) && t in m.owner && m.owner[t].Table? && 0 <= j < WORDS
    requires FrameOk(m, t) && Inv(NewPage(m, t, j, mask)) && IsDir(m, e) && UserPage(p)
    ensures FrameOk(m, e) && FrameOk(NewPage(m, t, j, mask), e)
    ensures m.owner[t] == Table(e, PdeOf(p)) && PteOf(p) == j ==>
              var pde := Word(m.phys[e], PdeOf(p));
              pde != 0 && pde / PAGE == t ==>
                && Walk(NewPage(m, t, j, mask), e, p) == Some(m.edge)
                && PteAt(NewPage(m, t, j, mask), e, p) % PAGE == UserPresentFlags(mask)
    ensures !(m.owner[t] == Table(e, PdeOf(p)) && PteOf(p) == j) ==> SameWalk(m, NewPage(m, t, j, mask), e, p)
  {
    var r, flags := NewPage(m, t, j, mask), UserPresentFlags(mask);
    TableOf(m, e, p);
    PageParts(p);
    EdgeIsFree(m);
    UserPresentFlagsSet(mask);
    EntryParts(m.edge, flags);
    assert FrameOk(r, e) && e != t;
    PutGet(m.phys[t], j, Entry(m.edge, flags), PteOf(p));
    if Word(m.phys[e], PdeOf(p)) != 0 && !(m.owner[t] == Table(e, PdeOf(p)) && PteOf(p) == j) {
      WalkFrame(m, r, e, p);
    }
  }

  lemma PokeWalk(m: Mem, f: int, frame: Frame, e: int, p: int)
    requires Inv(m) && 0 <= f < |m.phys| && (f in m.owner ==> m.owner[f].Data?)
    requires Inv(Poke(m, f, frame)) && IsDir(m, e) && UserPage(p)
    ensures FrameOk(m, e) && FrameOk(Poke(m, f, frame), e) && SameWalk(m, Poke(m, f, frame), e, p)
  {
    TableOf(m, e, p);
    assert FrameOk(Poke(m, f, frame), e);
    if Word(m.phys[e], PdeOf(p)) != 0 { WalkFrame(m, Poke(m, f, frame), e, p); }
  }
}
