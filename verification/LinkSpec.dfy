/**
 Names, inodes and link counts of a ramfs volume (src/fs/ramfs.c, src/fs/vfs.c).
 Directories are maps from name to inode index; VolumeSpec and Volume put hash tables and the inode tree behind them.
 */
module LinkSpec {

  const EKERN := 1
  const ENOENT := 2
  const EEXIST := 17
  const ENOTDIR := 20
  const EISDIR := 21
  const INODES := 64            // what the root node of the inode tree holds

  /** An inode that was freed keeps its index: the tree never gives one back. */
  datatype Inode = Inode(dir: bool, nlinks: int, entries: map<string, int>, freed: bool)

  datatype Fs = Fs(inodes: map<int, Inode>, root: int, next: int)

  /** A name in a directory that is itself given by its path from the root. */
  datatype Path = Path(dirs: seq<string>, name: string)

  datatype Result<T> = Ok(value: T) | Err(error: int)

  // ---------- lookup ----------

  function Step(fs: Fs, d: int, name: string): (r: Result<int>)
    ensures r.Err? ==> r.error == if d !in fs.inodes then 1 else if !fs.inodes[d].dir then 20 else 2
    ensures r.Ok? <==> d in fs.inodes && fs.inodes[d].dir && name in fs.inodes[d].entries
  {
    if d !in fs.inodes then Err(EKERN)
    else if !fs.inodes[d].dir then Err(ENOTDIR)
    else if name !in fs.inodes[d].entries then Err(ENOENT)
    else Ok(fs.inodes[d].entries[name])
  }

  /** Follows the components from directory d on. */
  function Resolve(fs: Fs, d: int, names: seq<string>): (r: Result<int>)
    ensures r.Err? ==> r.error != 0
    decreases |names|
  {
    if names == [] then Ok(d)
    else
      match Step(fs, d, names[0])
      case Err(e) => Err(e)
      case Ok(i) => Resolve(fs, i, names[1..])
  }

  // ---------- references ----------

  /** The directory entries that name inode i. */
  ghost function Refs(fs: Fs, i: int): set<(int, string)> {
    set d, name | d in fs.inodes && name in fs.inodes[d].entries && fs.inodes[d].entries[name] == i :: (d, name)
  }

  ghost function Degree(fs: Fs, i: int): nat { |Refs(fs, i)| }

  ghost predicate Counted(fs: Fs, i: int)
    requires i in fs.inodes
  {
    Degree(fs, i) == if fs.inodes[i].freed then 0 else fs.inodes[i].nlinks
  }

  predicate Sane(fs: Fs, d: int)
    requires d in fs.inodes
  {
    && 0 <= d < fs.next && (!fs.inodes[d].dir || fs.inodes[d].freed ==> fs.inodes[d].entries == map[])
    && forall name :: name in fs.inodes[d].entries ==> fs.inodes[d].entries[name] in fs.inodes
  }

  /** Every link count is the number of names, and no name leads to a freed inode. */
  ghost predicate Inv(fs: Fs) {
    && fs.root in fs.inodes && fs.inodes[fs.root].dir && !fs.inodes[fs.root].freed
    && (forall d :: d in fs.inodes ==> Sane(fs, d))
    && (forall i :: i in fs.inodes ==> Counted(fs, i))
  }

  // ---------- the operations ----------

  function AddLinks(fs: Fs, i: int, n: int): Fs
    requires i in fs.inodes
  {
    fs.(inodes := fs.inodes[i := fs.inodes[i].(nlinks := fs.inodes[i].nlinks + n)])
  }

  function Bind(fs: Fs, d: int, name: string, i: int): Fs
    requires d in fs.inodes
  {
    fs.(inodes := fs.inodes[d := fs.inodes[d].(entries := fs.inodes[d].entries[name := i])])
  }

  function Unbind(fs: Fs, d: int, name: string): Fs
    requires d in fs.inodes
  {
    fs.(inodes := fs.inodes[d := fs.inodes[d].(entries := fs.inodes[d].entries - {name})])
  }

  /** ramfs_link_inode. */
  function Link(fs: Fs, i: int, d: int, name: string): (r: (Fs, int)) {
    if d !in fs.inodes then (fs, EKERN)
    else if !fs.inodes[d].dir then (fs, ENOTDIR)
    else if i !in fs.inodes then (fs, ENOENT)
    else if name in fs.inodes[d].entries then (fs, EEXIST)
    else (AddLinks(Bind(fs, d, name, i), i, 1), 0)
  }

  function Free(fs: Fs, i: int): Fs
    requires i in fs.inodes
  {
    fs.(inodes := fs.inodes[i := fs.inodes[i].(freed := true)])
  }

  /** The entry of a file is taken out; with its last name the inode goes. */
  function Drop(fs: Fs, d: int, name: string, i: int): Fs
    requires d in fs.inodes && i in fs.inodes
  {
    var u := AddLinks(Unbind(fs, d, name), i, -1);
    if u.inodes[i].nlinks > 0 then u else Free(u, i)
  }

  /** ramfs_unlink_inode. */
  function Unlink(fs: Fs, p: Path): (r: (Fs, int)) { UnlinkFrom(fs, Resolve(fs, fs.root, p.dirs), p.name) }

  /** Once it is known what became of the path up to the last name; so for the other operations. */
  function UnlinkFrom(fs: Fs, parent: Result<int>, name: string): (r: (Fs, int)) {
    match parent
    case Err(e) => (fs, e)
    case Ok(d) => UnlinkAt(fs, d, name)
  }

  function UnlinkAt(fs: Fs, d: int, name: string): (r: (Fs, int)) {
    match Step(fs, d, name)
    case Err(e) => (fs, e)
    case Ok(i) =>
      if i !in fs.inodes then (fs, EKERN)
      else if fs.inodes[i].dir then (fs, EISDIR)
      else (Drop(fs, d, name, i), 0)
  }

  /** The next index is handed out; the tree has room for what goes there, or grows and stores nothing. */
  function Store(fs: Fs, inode: Inode): Fs {
    fs.(inodes := if fs.next < INODES then fs.inodes[fs.next := inode] else fs.inodes, next := fs.next + 1)
  }

  /** A new inode that no entry names yet. */
  function Make(fs: Fs, dir: bool): Fs { Store(fs, Inode(dir, 0, map[], false)) }

  /** An inode that is freed before it gets a name still takes an index. */
  function Waste(fs: Fs): Fs { Store(fs, Inode(true, 0, map[], true)) }

  /** vfs_mknod. When the name is taken the new inode stays behind, without a name. */
  function Mknod(fs: Fs, p: Path): (r: (Fs, int)) { MknodFrom(fs, Resolve(fs, fs.root, p.dirs), p.name) }

  function MknodFrom(fs: Fs, parent: Result<int>, name: string): (r: (Fs, int)) {
    match parent
    case Err(e) => (fs, e)
    case Ok(d) => MknodAt(fs, d, name)
  }

  function MknodAt(fs: Fs, d: int, name: string): (r: (Fs, int)) {
    if d !in fs.inodes || !fs.inodes[d].dir then (fs, ENOTDIR) else Link(Make(fs, false), fs.next, d, name)
  }

  /** vfs_hardlink. */
  function Hardlink(fs: Fs, from: Path, to: Path): (r: (Fs, int)) {
    LinkFrom(fs, Resolve(fs, fs.root, from.dirs + [from.name]), Resolve(fs, fs.root, to.dirs), to.name)
  }

  function LinkFrom(fs: Fs, target: Result<int>, parent: Result<int>, name: string): (r: (Fs, int)) {
    if target.Err? then (fs, target.error)
    else if parent.Err? then (fs, parent.error)
    else Link(fs, target.value, parent.value, name)
  }

  /** vfs_rename: a second name, then the first one goes. */
  function Rename(fs: Fs, from: Path, to: Path): (r: (Fs, int)) {
    var (u, err) := Hardlink(fs, from, to);
    if err != 0 then (u, err) else Unlink(u, from)
  }

  /**
   ramfs_make_directory below the root. The inode comes first, whatever becomes of it; both link counts are
   taken whether or not the name was free; and a parent that has no inode is taken for a success.
   */
  function Mkdir(fs: Fs, p: Path): (r: (Fs, int)) { MkdirFrom(fs, Resolve(fs, fs.root, p.dirs), p.name) }

  function MkdirFrom(fs: Fs, parent: Result<int>, name: string): (r: (Fs, int)) {
    match parent
    case Err(e) => (Waste(fs), e)
    case Ok(d) =>
      if d !in fs.inodes then (Waste(fs), 0)
      else if !fs.inodes[d].dir then (Waste(fs), ENOTDIR)
      else (NewDirectory(fs, d, name), 0)
  }

  function NewDirectory(fs: Fs, d: int, name: string): Fs
    requires d in fs.inodes
  {
    var u := Make(fs, true);
    var v := if name in u.inodes[d].entries then u else Bind(u, d, name, fs.next);
    if fs.next in v.inodes then OwnName(v, fs.next) else v
  }

  /** The link from above, and the directory's name for itself. */
  function OwnName(v: Fs, i: int): Fs
    requires i in v.inodes
  {
    AddLinks(Bind(AddLinks(v, i, 1), i, ".", i), i, 1)
  }

  // ---------- counting ----------

  lemma RefsBind(fs: Fs, d: int, name: string, i: int, k: int)
    requires d in fs.inodes && name !in fs.inodes[d].entries
    ensures Refs(Bind(fs, d, name, i), k) == if k == i then Refs(fs, k) + {(d, name)} else Refs(fs, k)
    ensures (d, name) !in Refs(fs, k)
  {}

  lemma DegreeBind(fs: Fs, d: int, name: string, i: int, k: int)
    requires d in fs.inodes && name !in fs.inodes[d].entries
    ensures Degree(Bind(fs, d, name, i), k) == Degree(fs, k) + if k == i then 1 else 0
  {
    RefsBind(fs, d, name, i, k);
    OneMore(Refs(fs, k), (d, name));
  }

  lemma OneMore(s: set<(int, string)>, x: (int, string))
    requires x !in s
    ensures |s + {x}| == |s| + 1
  {}

  lemma OneLess(s: set<(int, string)>, x: (int, string))
    ensures |s - {x}| + (if x in s then 1 else 0) == |s|
  {
    if x !in s { assert s - {x} == s; }
  }

  lemma RefsUnbind(fs: Fs, d: int, name: string, k: int)
    requires d in fs.inodes && name in fs.inodes[d].entries
    ensures Refs(Unbind(fs, d, name), k) == Refs(fs, k) - {(d, name)}
    ensures (d, name) in Refs(fs, k) <==> fs.inodes[d].entries[name] == k
  {}

  lemma DegreeUnbind(fs: Fs, d: int, name: string, k: int)
    requires d in fs.inodes && name in fs.inodes[d].entries
    ensures Degree(Unbind(fs, d, name), k) + (if fs.inodes[d].entries[name] == k then 1 else 0) == Degree(fs, k)
  {
    RefsUnbind(fs, d, name, k);
    OneLess(Refs(fs, k), (d, name));
  }

  lemma DegreeSame(fs: Fs, u: Fs, k: int)
    requires u.inodes.Keys == fs.inodes.Keys
    requires forall d :: d in fs.inodes ==> u.inodes[d].entries == fs.inodes[d].entries
    ensures Degree(u, k) == Degree(fs, k)
  {
    assert Refs(u, k) == Refs(fs, k);
  }

  lemma DegreeStore(fs: Fs, inode: Inode, k: int)
    requires fs.next !in fs.inodes && inode.entries == map[]
    ensures Degree(Store(fs, inode), k) == Degree(fs, k)
  {
    assert Refs(Store(fs, inode), k) == Refs(fs, k);
  }

  lemma DegreePositive(fs: Fs, d: int, name: string, k: int)
    requires Step(fs, d, name) == Ok(k)
    ensures Degree(fs, k) > 0
  {
    assert (d, name) in Refs(fs, k);
  }

  /** A name always leads to an inode that exists and is not freed. */
  lemma StepLive(fs: Fs, d: int, name: string)
    requires Inv(fs) && Step(fs, d, name).Ok?
    ensures var i := Step(fs, d, name).value; i in fs.inodes && !fs.inodes[i].freed && fs.inodes[i].nlinks > 0
  {
    var i := Step(fs, d, name).value;
    assert Sane(fs, d);
    assert Counted(fs, i);
    DegreePositive(fs, d, name, i);
  }

  lemma NextIsNew(fs: Fs)
    requires Inv(fs)
    ensures fs.next !in fs.inodes && Degree(fs, fs.next) == 0
  {
    forall d | d in fs.inodes ensures d != fs.next { assert Sane(fs, d); }
    forall r | r in Refs(fs, fs.next) ensures fs.next in fs.inodes { assert Sane(fs, r.0); }
    assert Refs(fs, fs.next) == {};
  }

  lemma LinkSane(fs: Fs, i: int, d: int, name: string, k: int)
    requires Link(fs, i, d, name).1 == 0 && !fs.inodes[d].freed && k in fs.inodes && Sane(fs, k)
    ensures Sane(Link(fs, i, d, name).0, k)
  {
    assert Link(fs, i, d, name).0.inodes.Keys == fs.inodes.Keys;
  }

  /** A further name and a further link. */
  lemma LinkInv(fs: Fs, i: int, d: int, name: string)
    requires Inv(fs) && (i in fs.inodes ==> !fs.inodes[i].freed) && (d in fs.inodes ==> !fs.inodes[d].freed)
    ensures Inv(Link(fs, i, d, name).0)
  {
    var (u, err) := Link(fs, i, d, name);
    if err == 0 {
      var b := Bind(fs, d, name, i);
      forall k | k in u.inodes ensures Sane(u, k) { LinkSane(fs, i, d, name, k); }
      forall k | k in u.inodes ensures Counted(u, k) {
        assert Counted(fs, k);
        DegreeBind(fs, d, name, i, k);
        DegreeSame(b, u, k);
      }
    }
  }

  /** An inode without a name, with no links or already freed. */
  lemma StoreInv(fs: Fs, inode: Inode)
    requires Inv(fs) && inode.entries == map[] && inode.nlinks == 0
    ensures Inv(Store(fs, inode))
  {
    NextIsNew(fs);
    assert Sane(fs, fs.root);
    var u := Store(fs, inode);
    forall k | k in u.inodes ensures Sane(u, k) { StoreSane(fs, inode, k); }
    forall k | k in u.inodes ensures Counted(u, k) {
      DegreeStore(fs, inode, k);
      assert k in fs.inodes ==> Counted(fs, k);
    }
  }

  lemma StoreSane(fs: Fs, inode: Inode, k: int)
    requires Inv(fs) && inode.entries == map[] && k in Store(fs, inode).inodes
    ensures Sane(Store(fs, inode), k)
  {
    assert Sane(fs, fs.root);
    assert k in fs.inodes ==> Sane(fs, k);
  }

  lemma MknodAtInv(fs: Fs, d: int, name: string)
    requires Inv(fs) && (d in fs.inodes ==> !fs.inodes[d].freed)
    ensures Inv(MknodAt(fs, d, name).0)
  {
    assert Sane(fs, fs.root);
    if d in fs.inodes && fs.inodes[d].dir {
      StoreInv(fs, Inode(false, 0, map[], false));
      LinkInv(Make(fs, false), fs.next, d, name);
    }
  }

  lemma MknodInv(fs: Fs, p: Path)
    requires Inv(fs)
    ensures Inv(Mknod(fs, p).0)
  {
    var r := Resolve(fs, fs.root, p.dirs);
    if r.Ok? {
      ResolveLive(fs, fs.root, p.dirs);
      MknodAtInv(fs, r.value, p.name);
    }
  }

  lemma {:induction false} ResolveLive(fs: Fs, d: int, names: seq<string>)
    requires Inv(fs) && d in fs.inodes && !fs.inodes[d].freed && Resolve(fs, d, names).Ok?
    ensures var i := Resolve(fs, d, names).value; i in fs.inodes && !fs.inodes[i].freed
    decreases |names|
  {
    if names != [] {
      StepLive(fs, d, names[0]);
      ResolveLive(fs, Step(fs, d, names[0]).value, names[1..]);
    }
  }

  lemma HardlinkInv(fs: Fs, from: Path, to: Path)
    requires Inv(fs)
    ensures Inv(Hardlink(fs, from, to).0)
  {
    assert Sane(fs, fs.root);
    var a, b := Resolve(fs, fs.root, from.dirs + [from.name]), Resolve(fs, fs.root, to.dirs);
    if a.Ok? && b.Ok? {
      ResolveLive(fs, fs.root, from.dirs + [from.name]);
      ResolveLive(fs, fs.root, to.dirs);
      LinkInv(fs, a.value, b.value, to.name);
    }
  }

  lemma DropInv(fs: Fs, d: int, name: string, i: int)
    requires Inv(fs) && Step(fs, d, name) == Ok(i) && i in fs.inodes && !fs.inodes[i].dir
    ensures Inv(Drop(fs, d, name, i))
  {
    var u := Drop(fs, d, name, i);
    StepLive(fs, d, name);
    DropShape(fs, d, name, i);
    forall k | k in u.inodes ensures Sane(u, k) { DropSane(fs, d, name, i, k); }
    forall k | k in u.inodes ensures Counted(u, k) { DropCounted(fs, d, name, i, k); }
  }

  lemma DropShape(fs: Fs, d: int, name: string, i: int)
    requires d in fs.inodes && i in fs.inodes
    ensures var u := Drop(fs, d, name, i);
            && u.inodes.Keys == fs.inodes.Keys && u.root == fs.root
            && forall k :: k in fs.inodes && k != i ==>
                 u.inodes[k].dir == fs.inodes[k].dir && u.inodes[k].freed == fs.inodes[k].freed
  {}

  lemma DropSane(fs: Fs, d: int, name: string, i: int, k: int)
    requires Step(fs, d, name) == Ok(i) && i in fs.inodes && !fs.inodes[i].dir && k in fs.inodes && Sane(fs, k)
    ensures Sane(Drop(fs, d, name, i), k)
  {
    var u := Drop(fs, d, name, i);
    assert u.inodes.Keys == fs.inodes.Keys;
    assert u.inodes[k].entries.Keys <= fs.inodes[k].entries.Keys;
  }

  lemma DropCounted(fs: Fs, d: int, name: string, i: int, k: int)
    requires Step(fs, d, name) == Ok(i) && i in fs.inodes && !fs.inodes[i].dir && !fs.inodes[i].freed
    requires k in fs.inodes && Counted(fs, k)
    ensures Counted(Drop(fs, d, name, i), k)
  {
    DegreeUnbind(fs, d, name, k);
    DegreeSame(Unbind(fs, d, name), Drop(fs, d, name, i), k);
  }

  lemma UnlinkAtInv(fs: Fs, d: int, name: string)
    requires Inv(fs)
    ensures Inv(UnlinkAt(fs, d, name).0)
  {
    var s := Step(fs, d, name);
    if s.Ok? && UnlinkAt(fs, d, name).1 == 0 { DropInv(fs, d, name, s.value); }
  }

  lemma UnlinkInv(fs: Fs, p: Path)
    requires Inv(fs)
    ensures Inv(Unlink(fs, p).0)
  {
    var r := Resolve(fs, fs.root, p.dirs);
    if r.Ok? { UnlinkAtInv(fs, r.value, p.name); }
  }

  lemma RenameInv(fs: Fs, from: Path, to: Path)
    requires Inv(fs)
    ensures Inv(Rename(fs, from, to).0)
  {
    HardlinkInv(fs, from, to);
    UnlinkInv(Hardlink(fs, from, to).0, from);
  }

  lemma OwnNameDegree(v: Fs, i: int, k: int)
    requires i in v.inodes && "." !in v.inodes[i].entries
    ensures Degree(OwnName(v, i), k) == Degree(v, k) + if k == i then 1 else 0
  {
    var u := AddLinks(v, i, 1);
    DegreeSame(v, u, k);
    DegreeBind(u, i, ".", i, k);
    DegreeSame(Bind(u, i, ".", i), OwnName(v, i), k);
  }

  lemma OwnNameSane(v: Fs, i: int, k: int)
    requires i in v.inodes && k in v.inodes && Sane(v, k) && v.inodes[i].dir && !v.inodes[i].freed
    ensures Sane(OwnName(v, i), k)
  {
    assert OwnName(v, i).inodes.Keys == v.inodes.Keys;
  }

  /** A taken name leaves the new directory with one link more than names. */
  lemma MkdirTaken(fs: Fs, d: int, name: string)
    requires Inv(fs) && d in fs.inodes && name in fs.inodes[d].entries && fs.next < INODES
    ensures fs.next in NewDirectory(fs, d, name).inodes && !Counted(NewDirectory(fs, d, name), fs.next)
    ensures !Inv(NewDirectory(fs, d, name))
  {
    NextIsNew(fs);
    DegreeStore(fs, Inode(true, 0, map[], false), fs.next);
    OwnNameDegree(Make(fs, true), fs.next, fs.next);
  }

  /** With the tree full, a free name is left leading to no inode. */
  lemma MkdirFull(fs: Fs, d: int, name: string)
    requires Inv(fs) && d in fs.inodes && name !in fs.inodes[d].entries && fs.next >= INODES
    ensures d in NewDirectory(fs, d, name).inodes && !Sane(NewDirectory(fs, d, name), d)
    ensures !Inv(NewDirectory(fs, d, name))
  {
    NextIsNew(fs);
    var w := NewDirectory(fs, d, name);
    assert w.inodes[d].entries[name] == fs.next && fs.next !in w.inodes;
  }

  lemma MkdirCounted(fs: Fs, d: int, name: string, k: int)
    requires Inv(fs) && d in fs.inodes && name !in fs.inodes[d].entries && fs.next < INODES
    requires k in NewDirectory(fs, d, name).inodes
    ensures Counted(NewDirectory(fs, d, name), k)
  {
    var i, m := fs.next, Make(fs, true);
    NextIsNew(fs);
    DegreeStore(fs, Inode(true, 0, map[], false), k);
    DegreeBind(m, d, name, i, k);
    OwnNameDegree(Bind(m, d, name, i), i, k);
    assert k in fs.inodes ==> Counted(fs, k);
  }

  lemma BindSane(fs: Fs, d: int, name: string, i: int, k: int)
    requires d in fs.inodes && fs.inodes[d].dir && !fs.inodes[d].freed
    requires i in fs.inodes && k in fs.inodes && Sane(fs, k)
    ensures Sane(Bind(fs, d, name, i), k)
  {
    assert Bind(fs, d, name, i).inodes.Keys == fs.inodes.Keys;
  }

  lemma MkdirSane(fs: Fs, d: int, name: string, k: int)
    requires Inv(fs) && d in fs.inodes && fs.inodes[d].dir && !fs.inodes[d].freed && fs.next < INODES
    requires k in NewDirectory(fs, d, name).inodes
    ensures Sane(NewDirectory(fs, d, name), k)
  {
    var i, m := fs.next, Make(fs, true);
    NextIsNew(fs);
    StoreSane(fs, Inode(true, 0, map[], false), k);
    if name in m.inodes[d].entries {
      OwnNameSane(m, i, k);
    } else {
      BindSane(m, d, name, i, k);
      OwnNameSane(Bind(m, d, name, i), i, k);
    }
  }

  /** If the parent path leads to a directory, then the name is free exactly if the tree has room. */
  predicate MkdirFits(fs: Fs, p: Path) {
    var r := Resolve(fs, fs.root, p.dirs);
    r.Ok? && r.value in fs.inodes && fs.inodes[r.value].dir ==>
      (p.name !in fs.inodes[r.value].entries <==> fs.next < INODES)
  }

  lemma NewDirectoryInv(fs: Fs, d: int, name: string)
    requires Inv(fs) && d in fs.inodes && fs.inodes[d].dir && !fs.inodes[d].freed
    requires name !in fs.inodes[d].entries && fs.next < INODES
    ensures Inv(NewDirectory(fs, d, name))
  {
    var w := NewDirectory(fs, d, name);
    NextIsNew(fs);
    NewDirectoryRoot(fs, d, name);
    forall k | k in w.inodes ensures Sane(w, k) { MkdirSane(fs, d, name, k); }
    forall k | k in w.inodes ensures Counted(w, k) { MkdirCounted(fs, d, name, k); }
  }

  lemma NewDirectoryRoot(fs: Fs, d: int, name: string)
    requires d in fs.inodes && fs.root in fs.inodes && fs.next !in fs.inodes
    ensures var w := NewDirectory(fs, d, name);
            && w.root == fs.root && w.root in w.inodes
            && w.inodes[w.root].dir == fs.inodes[fs.root].dir && w.inodes[w.root].freed == fs.inodes[fs.root].freed
  {}

  lemma NewDirectoryExact(fs: Fs, d: int, name: string)
    requires Inv(fs) && d in fs.inodes && fs.inodes[d].dir && !fs.inodes[d].freed
    ensures Inv(NewDirectory(fs, d, name)) <==> (name !in fs.inodes[d].entries <==> fs.next < INODES)
  {
    if fs.next >= INODES {
      if name in fs.inodes[d].entries { FullAndTaken(fs, d, name); } else { MkdirFull(fs, d, name); }
    } else if name in fs.inodes[d].entries {
      MkdirTaken(fs, d, name);
    } else {
      NewDirectoryInv(fs, d, name);
    }
  }

  lemma FullAndTaken(fs: Fs, d: int, name: string)
    requires Inv(fs) && d in fs.inodes && name in fs.inodes[d].entries && fs.next >= INODES
    ensures Inv(NewDirectory(fs, d, name))
  {
    NextIsNew(fs);
    assert NewDirectory(fs, d, name) == Make(fs, true);
    StoreInv(fs, Inode(true, 0, map[], false));
  }

  /** mkdir keeps the counts right if and only if it has no parent directory, or its name is free and the tree has room,
      or neither. */
  lemma MkdirExact(fs: Fs, p: Path)
    requires Inv(fs)
    ensures Inv(Mkdir(fs, p).0) <==> MkdirFits(fs, p)
  {
    assert Sane(fs, fs.root);
    var r := Resolve(fs, fs.root, p.dirs);
    if r.Ok? { ResolveLive(fs, fs.root, p.dirs); }
    if r.Ok? && fs.inodes[r.value].dir {
      NewDirectoryExact(fs, r.value, p.name);
    } else {
      StoreInv(fs, Inode(true, 0, map[], true));
    }
  }

  // ---------- what each operation does to names, inodes and counts ----------

  /** Inode k is what it was, but for its links. */
  predicate Linked(fs: Fs, u: Fs, k: int, links: int) {
    && k in fs.inodes && k in u.inodes
    && u.inodes[k].dir == fs.inodes[k].dir && u.inodes[k].freed == fs.inodes[k].freed
    && u.inodes[k].nlinks == fs.inodes[k].nlinks + links
  }

  /** The same inodes, of which only i has other links. */
  ghost predicate SameInodes(fs: Fs, u: Fs, i: int, links: int) {
    && u.root == fs.root && u.next == fs.next && u.inodes.Keys == fs.inodes.Keys
    && forall k :: k in fs.inodes ==> Linked(fs, u, k, if k == i then links else 0)
  }

  /** A link fails exactly without the directory or the inode, or if the name is taken; otherwise the name leads to the
      inode, which has one link more, and all else is as before. */
  lemma LinkExact(fs: Fs, i: int, d: int, name: string)
    ensures var (u, err) := Link(fs, i, d, name);
            && err == (if d !in fs.inodes then 1 else if !fs.inodes[d].dir then 20 else if i !in fs.inodes then 2
                       else if name in fs.inodes[d].entries then 17 else 0)
            && (err != 0 ==> u == fs)
            && (err == 0 ==>
                  && SameInodes(fs, u, i, 1)
                  && forall e, n :: Step(u, e, n) == if e == d && n == name then Ok(i) else Step(fs, e, n))
  {
    var (u, err) := Link(fs, i, d, name);
    if err == 0 {
      LinkSteps(fs, i, d, name);
      forall k | k in fs.inodes ensures Linked(fs, u, k, if k == i then 1 else 0) {}
    }
  }

  lemma HardlinkExact(fs: Fs, from: Path, to: Path)
    requires Inv(fs)
    ensures var (u, err) := Hardlink(fs, from, to);
            var i, d := Resolve(fs, fs.root, from.dirs + [from.name]), Resolve(fs, fs.root, to.dirs);
            && err == (if i.Err? then i.error else if d.Err? then d.error
                       else if d.value !in fs.inodes || !fs.inodes[d.value].dir then 20
                       else if to.name in fs.inodes[d.value].entries then 17 else 0)
            && (err != 0 ==> u == fs)
            && (err == 0 ==>
                  && SameInodes(fs, u, i.value, 1)
                  && forall e, n ::
                       Step(u, e, n) == if e == d.value && n == to.name then i else Step(fs, e, n))
  {
    var i, d := Resolve(fs, fs.root, from.dirs + [from.name]), Resolve(fs, fs.root, to.dirs);
    assert Sane(fs, fs.root);
    if i.Ok? { ResolveLive(fs, fs.root, from.dirs + [from.name]); }
    if d.Ok? { ResolveLive(fs, fs.root, to.dirs); }
    if i.Ok? && d.Ok? { LinkExact(fs, i.value, d.value, to.name); }
  }

  /** An unlink fails exactly if the name leads nowhere or to a directory; otherwise the name is gone, the inode has one
      link less and is freed exactly if that was the last. */
  lemma UnlinkExact(fs: Fs, p: Path)
    requires Inv(fs)
    ensures var (u, err) := Unlink(fs, p);
            var d, i := Resolve(fs, fs.root, p.dirs), Resolve(fs, fs.root, p.dirs + [p.name]);
            && err == (if i.Err? then i.error else if i.value !in fs.inodes || fs.inodes[i.value].dir then 21 else 0)
            && (err != 0 ==> u == fs)
            && (err == 0 ==>
                  && d.Ok? && i.value in u.inodes
                  && u.inodes[i.value].nlinks == fs.inodes[i.value].nlinks - 1
                  && !u.inodes[i.value].dir && u.inodes[i.value].freed == (fs.inodes[i.value].nlinks == 1)
                  && u.root == fs.root && u.next == fs.next && u.inodes.Keys == fs.inodes.Keys
                  && (forall k :: k in fs.inodes && k != i.value ==> Linked(fs, u, k, 0))
                  && forall e, n ::
                       Step(u, e, n) == if e == d.value && n == p.name then Err(2) else Step(fs, e, n))
  {
    var d := Resolve(fs, fs.root, p.dirs);
    ResolveAppend(fs, fs.root, p.dirs, p.name);
    if d.Ok? && Step(fs, d.value, p.name).Ok? {
      var i := Step(fs, d.value, p.name).value;
      StepLive(fs, d.value, p.name);
      if !fs.inodes[i].dir {
        var u := Drop(fs, d.value, p.name, i);
        DropSteps(fs, d.value, p.name, i);
        forall k | k in fs.inodes && k != i ensures Linked(fs, u, k, 0) {}
      }
    }
  }

  /** The parent path leads to a directory, the name is free there, and the tree has room. */
  predicate CanMknod(fs: Fs, p: Path) {
    var d := Resolve(fs, fs.root, p.dirs);
    d.Ok? && d.value in fs.inodes && fs.inodes[d.value].dir && p.name !in fs.inodes[d.value].entries && fs.next < 64
  }

  /** mknod succeeds exactly then: the name leads to a new file with one link. A taken name leaves a file without a
      link; without a directory nothing happens. No other name or inode changes. */
  lemma MknodExact(fs: Fs, p: Path)
    requires Inv(fs)
    ensures var (u, err) := Mknod(fs, p); var d := Resolve(fs, fs.root, p.dirs);
            && (err == 0 <==> CanMknod(fs, p))
            && err == (if d.Err? then d.error else if d.value !in fs.inodes || !fs.inodes[d.value].dir then 20
                       else if fs.next >= 64 then 2 else if p.name in fs.inodes[d.value].entries then 17 else 0)
            && (d.Err? || err == 20 ==> u == fs)
            && (d.Ok? && err != 20 ==> NewFile(fs, u, d.value, p.name, err))
  {
    var d := Resolve(fs, fs.root, p.dirs);
    NextIsNew(fs);
    assert Sane(fs, fs.root);
    if d.Ok? {
      ResolveLive(fs, fs.root, p.dirs);
      if fs.inodes[d.value].dir { MknodAtExact(fs, d.value, p.name); }
    }
  }

  lemma MknodSucceeds(fs: Fs, p: Path)
    requires Inv(fs)
    ensures Mknod(fs, p).1 == 0 <==> CanMknod(fs, p)
  {
    MknodExact(fs, p);
  }

  /** The next index is used up. If the tree has room a file is there, with a link exactly if it got the name. */
  ghost predicate NewFile(fs: Fs, u: Fs, d: int, name: string, err: int) {
    && u.root == fs.root && u.next == fs.next + 1
    && u.inodes.Keys == fs.inodes.Keys + (if fs.next < 64 then {fs.next} else {})
    && (fs.next < 64 ==> u.inodes[fs.next] == Inode(false, if err == 0 then 1 else 0, map[], false))
    && (forall k :: k in fs.inodes ==> Linked(fs, u, k, 0))
    && forall e, n ::
         Step(u, e, n) == if err == 0 && e == d && n == name then Ok(fs.next)
                          else if fs.next < 64 && e == fs.next then Err(20) else Step(fs, e, n)
  }

  lemma MknodAtExact(fs: Fs, d: int, name: string)
    requires fs.next !in fs.inodes && d in fs.inodes && fs.inodes[d].dir
    ensures var (u, err) := MknodAt(fs, d, name);
            && err == (if fs.next >= 64 then 2 else if name in fs.inodes[d].entries then 17 else 0)
            && NewFile(fs, u, d, name, err)
  {
    var m := Make(fs, false);
    var (u, err) := MknodAt(fs, d, name);
    LinkExact(m, fs.next, d, name);
    forall k | k in fs.inodes ensures Linked(fs, u, k, 0) {
      if err == 0 { assert Linked(m, u, k, 0); }
    }
    if err == 0 { assert Linked(m, u, fs.next, 1); }
  }

  /** mkdir reports an error exactly if its parent path leads to no directory. Otherwise a name that is free leads to
      the next index, whether or not the tree has room for it; and if it has, a directory is there that has two links
      and its own name. */
  lemma MkdirEffect(fs: Fs, p: Path)
    requires Inv(fs)
    ensures var (u, err) := Mkdir(fs, p); var d := Resolve(fs, fs.root, p.dirs);
            && err == (if d.Err? then d.error else if d.value !in fs.inodes || !fs.inodes[d.value].dir then 20 else 0)
            && NewDir(fs, u, if d.Ok? then d.value else 0, p.name, err)
  {
    var d := Resolve(fs, fs.root, p.dirs);
    NextIsNew(fs);
    assert Sane(fs, fs.root);
    if d.Ok? { ResolveLive(fs, fs.root, p.dirs); }
    if d.Ok? && fs.inodes[d.value].dir {
      NewDirectoryEffect(fs, d.value, p.name);
    } else {
      WasteEffect(fs, if d.Ok? then d.value else 0, p.name, Mkdir(fs, p).1);
    }
  }

  lemma WasteEffect(fs: Fs, d: int, name: string, err: int)
    requires fs.next !in fs.inodes && err != 0
    ensures NewDir(fs, Waste(fs), d, name, err)
  {
    var u := Waste(fs);
    forall k | k in fs.inodes ensures Linked(fs, u, k, 0) {}
  }

  ghost predicate NewDir(fs: Fs, u: Fs, d: int, name: string, err: int) {
    && u.root == fs.root && u.next == fs.next + 1
    && u.inodes.Keys == fs.inodes.Keys + (if fs.next < 64 then {fs.next} else {})
    && (fs.next < 64 ==> u.inodes[fs.next] == if err == 0 then Inode(true, 2, map["." := fs.next], false)
                                              else Inode(true, 0, map[], true))
    && (forall k :: k in fs.inodes ==> Linked(fs, u, k, 0))
    && forall e, n :: e != fs.next ==>
         Step(u, e, n) == if err == 0 && e == d && n == name && Step(fs, d, name).Err? then Ok(fs.next)
                          else Step(fs, e, n)
  }

  lemma NewDirectoryEffect(fs: Fs, d: int, name: string)
    requires fs.next !in fs.inodes && d in fs.inodes && fs.inodes[d].dir
    ensures NewDir(fs, NewDirectory(fs, d, name), d, name, 0)
  {
    var u := NewDirectory(fs, d, name);
    forall k | k in fs.inodes ensures Linked(fs, u, k, 0) {}
  }

  // ---------- rename ----------

  /** No names lead to where one is, and a further name is one step from where the others lead. */
  lemma {:induction false} ResolveAppend(fs: Fs, d: int, names: seq<string>, name: string)
    ensures Resolve(fs, d, []) == Ok(d)
    ensures Resolve(fs, d, names + [name])
         == (match Resolve(fs, d, names) case Err(e) => Err(e) case Ok(i) => Step(fs, i, name))
    decreases |names|
  {
    if names != [] {
      assert (names + [name])[1..] == names[1..] + [name];
      var s := Step(fs, d, names[0]);
      if s.Ok? { ResolveAppend(fs, s.value, names[1..], name); }
    } else {
      assert names + [name] == [name];
      assert forall i :: Resolve(fs, i, []) == Ok(i);
    }
  }

  /** A path that leads somewhere still leads there after a name was added anywhere. */
  lemma {:induction false} ResolveStable(fs: Fs, u: Fs, d: int, names: seq<string>)
    requires Resolve(fs, d, names).Ok?
    requires forall e, name :: Step(fs, e, name).Ok? ==> Step(u, e, name) == Step(fs, e, name)
    ensures Resolve(u, d, names) == Resolve(fs, d, names)
    decreases |names|
  {
    if names != [] { ResolveStable(fs, u, Step(fs, d, names[0]).value, names[1..]); }
  }

  lemma LinkSteps(fs: Fs, i: int, d: int, name: string)
    requires Link(fs, i, d, name).1 == 0
    ensures forall e, n :: Step(Link(fs, i, d, name).0, e, n) == if e == d && n == name then Ok(i) else Step(fs, e, n)
  {}

  predicate CanRename(fs: Fs, from: Path, to: Path) {
    var a, b := Resolve(fs, fs.root, from.dirs + [from.name]), Resolve(fs, fs.root, to.dirs);
    && a.Ok? && a.value in fs.inodes && !fs.inodes[a.value].dir
    && b.Ok? && b.value in fs.inodes && fs.inodes[b.value].dir && to.name !in fs.inodes[b.value].entries
  }

  /** A rename succeeds exactly if the old name is a file's, and the new one is free in an existing directory. */
  lemma RenameExact(fs: Fs, from: Path, to: Path)
    requires Inv(fs)
    ensures Rename(fs, from, to).1 == 0 <==> CanRename(fs, from, to)
    ensures Rename(fs, from, to).1 == 0 ==>
              var i := Resolve(fs, fs.root, from.dirs + [from.name]).value;
              var c, d := Resolve(fs, fs.root, from.dirs), Resolve(fs, fs.root, to.dirs);
              && c.Ok? && d.Ok? && Link(fs, i, d.value, to.name).1 == 0 && c.value in fs.inodes
              && Step(fs, c.value, from.name) == Ok(i) && i in fs.inodes && !fs.inodes[i].dir && fs.inodes[i].nlinks > 0
              && !fs.inodes[i].freed
              && Rename(fs, from, to).0 == Drop(Link(fs, i, d.value, to.name).0, c.value, from.name, i)
  {
    var a, b := Resolve(fs, fs.root, from.dirs + [from.name]), Resolve(fs, fs.root, to.dirs);
    ResolveAppend(fs, fs.root, from.dirs, from.name);
    var (v, err) := Hardlink(fs, from, to);
    if a.Ok? { StepLive(fs, Resolve(fs, fs.root, from.dirs).value, from.name); }
    if err == 0 {
      LinkSteps(fs, a.value, b.value, to.name);
      ResolveStable(fs, v, fs.root, from.dirs);
      assert Step(v, Resolve(fs, fs.root, from.dirs).value, from.name) == a;
    }
  }

  lemma RenameSucceeds(fs: Fs, from: Path, to: Path)
    requires Inv(fs)
    ensures Rename(fs, from, to).1 == 0 <==> CanRename(fs, from, to)
  {
    RenameExact(fs, from, to);
  }

  lemma DropSteps(fs: Fs, c: int, name: string, i: int)
    requires Step(fs, c, name) == Ok(i) && i in fs.inodes && !fs.inodes[i].dir
    ensures forall e, n ::
              Step(Drop(fs, c, name, i), e, n) == if e == c && n == name then Err(ENOENT) else Step(fs, e, n)
  {}

  /** A successful rename moves one name. Every other name leads where it led, and the link count is what it was. */
  lemma RenameMoves(fs: Fs, from: Path, to: Path)
    requires Inv(fs) && Rename(fs, from, to).1 == 0
    ensures var u := Rename(fs, from, to).0;
            var i := Resolve(fs, fs.root, from.dirs + [from.name]);
            var c, d := Resolve(fs, fs.root, from.dirs), Resolve(fs, fs.root, to.dirs);
            && i.Ok? && c.Ok? && d.Ok? && i.value in u.inodes && i.value in fs.inodes
            && u.inodes[i.value].nlinks == fs.inodes[i.value].nlinks && !u.inodes[i.value].freed
            && Step(u, c.value, from.name).Err? && Step(u, d.value, to.name) == Ok(i.value)
            && SameInodes(fs, u, i.value, 0)
            && forall e, n :: !(e == c.value && n == from.name) && !(e == d.value && n == to.name) ==>
                 Step(u, e, n) == Step(fs, e, n)
  {
    RenameExact(fs, from, to);
    var i := Resolve(fs, fs.root, from.dirs + [from.name]).value;
    var c, d := Resolve(fs, fs.root, from.dirs).value, Resolve(fs, fs.root, to.dirs).value;
    LinkSteps(fs, i, d, to.name);
    DropSteps(Link(fs, i, d, to.name).0, c, from.name, i);
    MovedInodes(fs, i, c, from.name, d, to.name);
  }

  lemma MovedInodes(fs: Fs, i: int, c: int, name: string, d: int, to: string)
    requires Link(fs, i, d, to).1 == 0 && i in fs.inodes && c in fs.inodes && fs.inodes[i].nlinks > 0
    ensures SameInodes(fs, Drop(Link(fs, i, d, to).0, c, name, i), i, 0)
  {
    var u := Drop(Link(fs, i, d, to).0, c, name, i);
    forall k | k in fs.inodes ensures Linked(fs, u, k, 0) {}
  }

  /** A rename that fails changes nothing, but for the one of a directory: that keeps both names. */
  lemma RenameFails(fs: Fs, from: Path, to: Path)
    requires Inv(fs) && Rename(fs, from, to).1 != 0
    ensures var (u, err) := Rename(fs, from, to); var (v, first) := Hardlink(fs, from, to);
            if first != 0 then err == first && u == fs else err == 21 && u == v
  {
    HardlinkExact(fs, from, to);
    HardlinkInv(fs, from, to);
    var (v, first) := Hardlink(fs, from, to);
    if first == 0 {
      var a := Resolve(fs, fs.root, from.dirs + [from.name]);
      UnlinkExact(v, from);
      ResolveStable(fs, v, fs.root, from.dirs + [from.name]);
    }
  }

  // ---------- runs ----------

  datatype Op = MknodOp(p: Path) | HardlinkOp(from: Path, to: Path) | UnlinkOp(p: Path)
              | RenameOp(from: Path, to: Path) | MkdirOp(p: Path)

  function Apply(fs: Fs, op: Op): Fs {
    match op
    case MknodOp(p) => Mknod(fs, p).0
    case HardlinkOp(from, to) => Hardlink(fs, from, to).0
    case UnlinkOp(p) => Unlink(fs, p).0
    case RenameOp(from, to) => Rename(fs, from, to).0
    case MkdirOp(p) => Mkdir(fs, p).0
  }

  function Run(fs: Fs, ops: seq<Op>): Fs
    decreases |ops|
  {
    if ops == [] then fs else Run(Apply(fs, ops[0]), ops[1..])
  }

  /** Inodes are asked for until the tree hands out its first index beyond its room, and not after that. */
  predicate Bounded(fs: Fs, ops: seq<Op>)
    decreases |ops|
  {
    ops == [] || ((ops[0].MknodOp? || ops[0].MkdirOp? ==> fs.next <= INODES) && Bounded(Apply(fs, ops[0]), ops[1..]))
  }

  predicate FitsOp(fs: Fs, op: Op) {
    op.MkdirOp? ==> MkdirFits(fs, op.p)
  }

  /** Every mkdir of the run finds no parent directory, or its name free and the tree with room, or neither. */
  predicate Fits(fs: Fs, ops: seq<Op>)
    decreases |ops|
  {
    ops == [] || (FitsOp(fs, ops[0]) && Fits(Apply(fs, ops[0]), ops[1..]))
  }

  /** The invariant holds before, between and after the operations. */
  ghost predicate Always(fs: Fs, ops: seq<Op>)
    decreases |ops|
  {
    Inv(fs) && (ops == [] || Always(Apply(fs, ops[0]), ops[1..]))
  }

  lemma ApplyInv(fs: Fs, op: Op)
    requires Inv(fs) && !op.MkdirOp?
    ensures Inv(Apply(fs, op))
  {
    if op.MknodOp? {
      MknodInv(fs, op.p);
    } else if op.HardlinkOp? {
      HardlinkInv(fs, op.from, op.to);
    } else if op.UnlinkOp? {
      UnlinkInv(fs, op.p);
    } else {
      RenameInv(fs, op.from, op.to);
    }
  }

  lemma ApplyExact(fs: Fs, op: Op)
    requires Inv(fs)
    ensures Inv(Apply(fs, op)) <==> FitsOp(fs, op)
  {
    if op.MkdirOp? { MkdirExact(fs, op.p); } else { ApplyInv(fs, op); }
  }

  /** Throughout a run link counts are exact and no name leads nowhere, if and only if every mkdir of it fits. */
  lemma {:induction false} RunExact(fs: Fs, ops: seq<Op>)
    requires Inv(fs) && Bounded(fs, ops)
    ensures Always(fs, ops) <==> Fits(fs, ops)
    decreases |ops|
  {
    if ops != [] {
      ApplyExact(fs, ops[0]);
      if FitsOp(fs, ops[0]) { RunExact(Apply(fs, ops[0]), ops[1..]); }
    }
  }

  lemma {:induction false} RunInv(fs: Fs, ops: seq<Op>)
    requires Always(fs, ops)
    ensures Inv(Run(fs, ops))
    decreases |ops|
  {
    if ops != [] { RunInv(Apply(fs, ops[0]), ops[1..]); }
  }

  /** A volume as it is mounted: index 0 is never a file, the root is its own parent. */
  function Mounted(): Fs {
    Fs(map[1 := Inode(true, 2, map[".." := 1, "." := 1], false)], 1, 2)
  }

  /** The volume has one inode, index 1, a directory with two links that both names in it lead to. */
  lemma MountedInv()
    ensures Inv(Mounted()) && Mounted().root == 1 && Mounted().next == 2 && Mounted().inodes.Keys == {1}
    ensures Mounted().inodes[1].dir && Mounted().inodes[1].nlinks == 2 && !Mounted().inodes[1].freed
    ensures forall n :: Step(Mounted(), 1, n) == if n == "." || n == ".." then Ok(1) else Err(2)
  {
    var fs := Mounted();
    assert Refs(fs, 1) == {(1, ".."), (1, ".")};
  }

  /** Over every run from the mounted volume: what a path leads to has exactly as many links as names, and is not
      freed. */
  lemma NamesAreLive(ops: seq<Op>, names: seq<string>)
    requires Bounded(Mounted(), ops) && Fits(Mounted(), ops)
    ensures var fs := Run(Mounted(), ops); var r := Resolve(fs, fs.root, names);
            r.Ok? ==>
              r.value in fs.inodes && !fs.inodes[r.value].freed && fs.inodes[r.value].nlinks == Degree(fs, r.value)
  {
    MountedInv();
    RunExact(Mounted(), ops);
    RunInv(Mounted(), ops);
    var fs := Run(Mounted(), ops);
    assert Sane(fs, fs.root);
    if Resolve(fs, fs.root, names).Ok? {
      ResolveLive(fs, fs.root, names);
      assert Counted(fs, Resolve(fs, fs.root, names).value);
    }
  }
}
