/**
 A ramfs volume in memory: inodes found through the tree, directories as hash tables, and the link, unlink, rename and
 mkdir paths of src/fs/ramfs.c and src/fs/vfs.c over them.
 */
module Volume {
  import opened Options
  import opened LinkSpec
  import opened VolumeSpec
  import DS = RamfsDirSpec
  import D = RamfsDir
  import T = InodeTree
  import TS = InodeTreeSpec

  /** struct inode. */
  class INode {
    const isDir: bool
    var nlinks: int
    var data: D.Directory?
    var freed: bool               // given back to the kernel's allocator
    ghost var repr: set<object>   // what the directory is made of

    constructor (dir: bool)
      ensures isDir == dir && nlinks == 0 && data == null && !freed && repr == {}
    {
      isDir, nlinks, data, freed, repr := dir, 0, null, false, {};
    }
  }

  function TableAt(v: Vol, i: int): Option<Table> { if i in v.tables then Some(v.tables[i]) else None }

  /** The directory has this table, and is made of these objects. */
  ghost predicate DirIs(h: string -> nat, dir: D.Directory, table: Table, repr: set<object>)
    reads repr
  {
    && dir in repr && dir.ht in repr && dir.AllNodes() <= repr
    && dir.Valid() && dir.strhash == h && dir.table == table
  }

  /** The inode in memory has these contents. */
  ghost predicate InodeIs(h: string -> nat, x: INode, inode: Inode, table: Option<Table>)
    reads x, x.repr
  {
    && inode.dir == x.isDir && inode.nlinks == x.nlinks && inode.freed == x.freed
    && (if x.data == null then table.None? else table.Some? && DirIs(h, x.data, table.value, x.repr))
  }

  /** Parts of directories only. */
  ghost predicate Parts(r: set<object>) {
    forall o :: o in r ==> !(o is INode) && !(o is T.BNode) && !(o is RamVolume)
  }

  class RamVolume {
    const strhash: string -> nat
    const root: int               // sb_root_ino
    var tree: T.BNode             // inodes_btree
    var idata: seq<INode>         // what the leaves of the tree point to; the first is theInvalidInode
    ghost var v: Vol
    ghost var Repr: set<object>

    ghost predicate Owned(i: int)
      requires 0 <= i < |idata|
      reads this, Repr
    {
      idata[i] in Repr && idata[i].repr <= Repr && Parts(idata[i].repr)
    }

    ghost predicate Apart(i: int, j: int)
      requires 0 <= i < |idata| && 0 <= j < |idata|
      reads this, Repr
    {
      idata[i] in Repr && idata[j] in Repr && idata[i] != idata[j] && idata[i].repr !! idata[j].repr
    }

    ghost predicate Good(i: int)
      requires 0 <= i < |idata|
      reads this, Repr
    {
      Owned(i) && i in v.fs.inodes && InodeIs(strhash, idata[i], v.fs.inodes[i], TableAt(v, i))
    }

    /** The tree has handed out n indices. */
    ghost predicate TreeIs(n: int)
      reads this, Repr
    {
      && tree in Repr && tree.Repr <= Repr && tree.Valid() && tree.fanout == INODES
      && 0 < n <= INODES + 1 && tree.tree == TreeOf(n)
    }

    /** The inodes are those of v. */
    ghost predicate Nodes()
      reads this, Repr
    {
      && this in Repr && v.fs.root == root && Tabled(strhash, v)
      && (forall i :: i in v.fs.inodes || i in v.tables ==> 0 < i < |idata|)
      && (forall i :: 0 <= i < |idata| ==> Owned(i))
      && (forall i, j :: 0 <= i < j < |idata| ==> Apart(i, j))
      && (forall i :: 0 < i < |idata| ==> Good(i))
    }

    /** Memory is the volume v. */
    ghost predicate Core()
      reads this, Repr
    {
      Nodes() && TreeIs(v.fs.next) && |idata| == if v.fs.next < INODES then v.fs.next else INODES
    }

    /** And every directory that is alive has its table. */
    ghost predicate Valid()
      reads this, Repr
    {
      Core() && Complete(v, -1)
    }

    /** An empty tree, but for index 0. */
    constructor (h: string -> nat, t: T.BNode, x: INode)
      requires x.repr == {}
      ensures strhash == h && root == 1 && tree == t && idata == [x] && v == BARE && Repr == {this, x} + t.Repr
    {
      strhash, root, tree, idata := h, 1, t, [x];
      v, Repr := BARE, {this, x} + t.Repr;
    }

    lemma BareCore()
      requires this in Repr && root == 1 && v == BARE && |idata| == 1
      requires idata[0] in Repr && idata[0].repr == {} && TreeIs(1)
      ensures Core()
    {
      assert Owned(0);
    }

    method MakeRoot()
      requires Core() && root == 1 && v == BARE
      modifies Repr
      ensures Valid() && fresh(Repr - old(Repr)) && v.fs == Mounted()
    {
      var x, i := NewInode(true);
      RootDirectory();
    }

    method RootDirectory()
      requires Core() && root == 1 && v == ROOTED
      modifies Repr
      ensures Valid() && fresh(Repr - old(Repr)) && v.fs == Mounted()
    {
      var n := AddLink(1, 1);
      var dir;
      ghost var table, repr;
      dir, table, repr := RootData(strhash);
      RootDone(strhash, table);
      SetData(1, dir, table, repr);
      n := AddLink(1, 1);
    }

    /** ramfs_idata_by_inode. */
    method Idata(i: int) returns (x: INode?)
      requires Core() && 0 < i
      ensures i in v.fs.inodes ==> i < |idata| && x == idata[i]
      ensures i !in v.fs.inodes ==> x == null
    {
      TreeOk(v.fs.next);
      TreeLookup(v.fs.next, i);
      var c := tree.GetIndex(i);
      assert i < |idata| ==> Good(i);
      match c
      case Null => x := null;
      case Inode(n) => x := idata[n];
      case Branch(_) => x := null;
    }

    /** btree_new_leaf: the next index. */
    method NewIndex() returns (i: int)
      requires Core() && v.fs.next <= INODES
      modifies tree.Repr, `tree, `Repr
      ensures Nodes() && TreeIs(v.fs.next + 1) && fresh(Repr - old(Repr)) && i == v.fs.next
    {
      TreeOk(v.fs.next);
      TreeNext(v.fs.next, |idata|);
      tree, i := T.NewLeaf(tree, |idata|);
      Repr := Repr + tree.Repr;
      forall k | 0 <= k < |idata| ensures Owned(k) { assert old(Owned(k)); }
      forall j, k | 0 <= j < k < |idata| ensures Apart(j, k) { assert old(Apart(j, k)); }
      forall k | 0 < k < |idata| ensures Good(k) { assert old(Good(k)); }
    }

    /** ramfs_inode_new. */
    method NewInode(dir: bool) returns (x: INode, i: int)
      requires Core() && v.fs.next <= INODES
      modifies tree.Repr, `tree, `idata, `v, `Repr
      ensures Core() && fresh(Repr - old(Repr)) && fresh(x) && x.isDir == dir
      ensures x.nlinks == 0 && x.data == null && !x.freed && x.repr == {}
      ensures i == old(v.fs.next) && v == old(v).(fs := Store(old(v.fs), LinkSpec.Inode(dir, 0, map[], false)))
      ensures idata == if i < INODES then old(idata) + [x] else old(idata)
    {
      i := NewIndex();
      x := new INode(dir);
      Register(x, i);
    }

    method Register(x: INode, i: int)
      requires Nodes() && TreeIs(i + 1) && x !in Repr && x.nlinks == 0 && x.data == null && !x.freed && x.repr == {}
      requires 0 < i == v.fs.next <= INODES && |idata| == i
      modifies `idata, `v, `Repr
      ensures Core() && Repr == old(Repr) + {x}
      ensures v == old(v).(fs := Store(old(v.fs), LinkSpec.Inode(x.isDir, 0, map[], false)))
      ensures idata == if i < INODES then old(idata) + [x] else old(idata)
    {
      if i < INODES { idata := idata + [x]; }
      v := v.(fs := Store(v.fs, LinkSpec.Inode(x.isDir, 0, map[], false)));
      Repr := Repr + {x};
      forall k | 0 <= k < |idata| ensures Owned(k) { assert k < |old(idata)| ==> old(Owned(k)); }
      forall j, k | 0 <= j < k < |idata| ensures Apart(j, k) {
        assert old(Owned(j)) && (k < |old(idata)| ==> old(Apart(j, k)));
      }
      forall k | 0 < k < |idata| ensures Good(k) { assert k < |old(idata)| ==> old(Good(k)); }
      forall k | k in v.fs.inodes ensures TabledAt(strhash, v, k) {
        assert k in old(v.fs.inodes) ==> TabledAt(strhash, old(v), k);
      }
    }

    /** Inode j is in order and shares nothing with inode k. */
    ghost predicate Beside(j: int, k: int)
      requires 0 <= j < |idata| && 0 <= k < |idata|
      reads this, Repr
    {
      && Owned(j) && (j > 0 ==> Good(j))
      && idata[k] in Repr && idata[j] != idata[k] && idata[j].repr !! idata[k].repr
    }

    /** All inodes but k are in order. */
    ghost predicate Others(k: int)
      requires 0 < k < |idata|
      reads this, Repr
    {
      && (forall j :: 0 <= j < |idata| && j != k ==> Beside(j, k))
      && (forall i, j :: 0 <= i < j < |idata| && i != k && j != k ==> Apart(i, j))
    }

    /** Only inode k and its directory have changed. */
    twostate lemma StillOthers(k: int)
      requires old(Core()) && 0 < k < |idata| && unchanged(this)
      requires unchanged(old(Repr) - old(idata[k].repr) - {idata[k]}) && idata[k].repr * old(Repr) <= old(idata[k].repr)
      ensures Others(k) && TreeIs(v.fs.next)
    {
      var x := idata[k];
      assert old(Owned(k));
      forall j | 0 <= j < |idata| && j != k ensures Beside(j, k) {
        assert old(Owned(j)) && old(Apart(if j < k then j else k, if j < k then k else j));
        assert j > 0 ==> old(Good(j));
      }
      forall i, j | 0 <= i < j < |idata| && i != k && j != k ensures Apart(i, j) {
        assert old(Apart(i, j)) && Beside(i, k) && Beside(j, k);
      }
    }

    /** Inode k has changed, and the volume with it. */
    ghost method Settle(k: int, w: Vol)
      requires 0 < k < |idata| && this in Repr && idata[k] in Repr && Others(k) && TreeIs(v.fs.next)
      requires |idata| == (if v.fs.next < INODES then v.fs.next else INODES) && v.fs.root == root
      requires forall i :: i in v.fs.inodes || i in v.tables ==> 0 < i < |idata|
      requires SameBut(v, w, k) && Tabled(strhash, w) && k in w.fs.inodes
      requires Parts(idata[k].repr) && InodeIs(strhash, idata[k], w.fs.inodes[k], TableAt(w, k))
      modifies `v, `Repr
      ensures Core() && v == w && Repr == old(Repr) + idata[k].repr
    {
      v := w;
      Repr := Repr + idata[k].repr;
      forall j | 0 <= j < |idata| ensures Owned(j) { assert j != k ==> old(Beside(j, k)); }
      forall i, j | 0 <= i < j < |idata| ensures Apart(i, j) {
        if i != k && j != k { assert old(Apart(i, j)); } else { assert old(Beside(if i == k then j else i, k)); }
      }
      forall j | 0 < j < |idata| ensures Good(j) { assert j != k ==> old(Beside(j, k)); }
    }

    /** The inode is a directory. */
    method IsDirectory(k: int) returns (yes: bool)
      requires Core() && k in v.fs.inodes
      ensures yes == v.fs.inodes[k].dir
    {
      var x := Idata(k);
      assert Good(k);
      yes := x.isDir;
    }

    /** ramfs_directory_new_entry in directory k. */
    method NewEntry(k: int, name: string, ino: int) returns (err: int)
      requires Core() && k in v.fs.inodes && k in v.tables
      modifies Repr
      ensures Core() && fresh(Repr - old(Repr)) && InTable(strhash, old(v), k)
      ensures name in old(v.fs).inodes[k].entries ==> err == EEXIST && v == old(v)
      ensures name !in old(v.fs).inodes[k].entries ==> err == 0 && v == Entered(strhash, old(v), k, name, ino)
      ensures tree == old(tree) && idata == old(idata)
    {
      var x := Idata(k);
      assert Owned(k) && Good(k) && TabledAt(strhash, v, k);
      EntriesAt(strhash, v.tables[k], name);
      err := Enter(k, x, name, ino);
    }

    method Enter(ghost k: int, x: INode, name: string, ino: int) returns (err: int)
      requires Core() && 0 < k < |idata| && x == idata[k] && x.data != null && InTable(strhash, v, k)
      requires name in v.fs.inodes[k].entries <==> DS.Lookup(strhash, v.tables[k], name).Some?
      modifies x.repr, x`repr, `v, `Repr
      ensures Core() && fresh(Repr - old(Repr))
      ensures name in old(v.fs).inodes[k].entries ==> err == EEXIST && v == old(v)
      ensures name !in old(v.fs).inodes[k].entries ==> err == 0 && v == Entered(strhash, old(v), k, name, ino)
    {
      assert Owned(k) && Good(k);
      err := InsertAt(x, strhash, v.tables[k], name, ino);
      StillOthers(k);
      if err == 0 {
        EnteredTabled(strhash, v, k, name, ino);
        Settle(k, Entered(strhash, v, k, name, ino));
      } else {
        Settle(k, v);
      }
    }

    /** ramfs_directory_delete_entry in directory k. */
    method DeleteEntry(k: int, name: string)
      requires Core() && k in v.tables && Step(v.fs, k, name).Ok?
      modifies Repr
      ensures Core() && Repr == old(Repr) && InTable(strhash, old(v), k)
      ensures DS.Lookup(strhash, old(v).tables[k], name).Some?
      ensures v == Dropped(strhash, old(v), k, name)
    {
      var x := Idata(k);
      assert Owned(k) && Good(k) && TabledAt(strhash, v, k);
      EntriesAt(strhash, v.tables[k], name);
      Erase(k, x, name);
    }

    method Erase(ghost k: int, x: INode, name: string)
      requires Core() && 0 < k < |idata| && x == idata[k] && x.data != null && InTable(strhash, v, k)
      requires DS.Lookup(strhash, v.tables[k], name).Some?
      modifies x.repr, `v, `Repr
      ensures Core() && Repr == old(Repr) && v == Dropped(strhash, old(v), k, name)
    {
      assert Owned(k) && Good(k);
      DeleteAt(x, strhash, v.tables[k], name);
      StillOthers(k);
      DroppedTabled(strhash, v, k, name);
      Settle(k, Dropped(strhash, v, k, name));
    }

    /** ++i_nlinks or --i_nlinks. */
    method AddLink(k: int, n: int) returns (nlinks: int)
      requires Core() && k in v.fs.inodes
      modifies Repr
      ensures Core() && Repr == old(Repr) && v == Recounted(old(v), k, n) && nlinks == v.fs.inodes[k].nlinks
      ensures tree == old(tree) && idata == old(idata)
    {
      var x := Idata(k);
      assert Owned(k) && Good(k);
      x.nlinks := x.nlinks + n;
      nlinks := x.nlinks;
      StillOthers(k);
      CountTabled(strhash, v, k, n);
      Settle(k, Recounted(v, k, n));
    }

    /** ramfs_inode_free. */
    method FreeInode(k: int)
      requires Core() && k in v.fs.inodes
      modifies Repr
      ensures Core() && Repr == old(Repr) && v == WithFreed(old(v), k)
    {
      var x := Idata(k);
      assert Owned(k) && Good(k);
      x.freed := true;
      StillOthers(k);
      CountTabled(strhash, v, k, 0);
      Settle(k, WithFreed(v, k));
    }

    /** The new directory gets its inode. */
    method SetData(k: int, dir: D.Directory, ghost table: Table, ghost repr: set<object>)
      requires Core() && k in v.fs.inodes && k !in v.tables
      requires DirIs(strhash, dir, table, repr) && Parts(repr) && repr !! Repr && DS.TableOk(strhash, table)
      modifies Repr
      ensures Core() && Repr == old(Repr) + repr && v == Attached(strhash, old(v), k, table)
    {
      var x := Idata(k);
      assert Owned(k) && Good(k);
      x.data, x.repr := dir, repr;
      StillOthers(k);
      AttachedTabled(strhash, v, k, table);
      Settle(k, Attached(strhash, v, k, table));
    }

    /**
     ramfs_lookup_inode, over the components of a path. It follows the searches for them, and ends at an inode that is
     alive.
     */
    method LookupInode(names: seq<string>, ghost skip: int) returns (r: Result<int>)
      requires Core() && Inv(v.fs) && Complete(v, skip) && Nameless(v.fs, skip)
      ensures r.Ok? ==> Live(v.fs, r.value) && r.value != skip
      ensures r == Follow(strhash, v, root, names)
    {
      var d, k := root, 0;
      assert names[0..] == names;
      while k < |names|
        invariant 0 <= k <= |names| && Live(v.fs, d) && d != skip
        invariant Follow(strhash, v, root, names) == Follow(strhash, v, d, names[k..])
      {
        assert names[k..][0] == names[k] && names[k..][1..] == names[k + 1..];
        SearchMeans(strhash, v, d, names[k], skip);
        var s := Search(d, names[k]);
        if s.Err? { return s; }
        d, k := s.value, k + 1;
      }
      r := Ok(d);
    }

    method Lookup(names: seq<string>) returns (r: Result<int>)
      requires Valid() && Inv(v.fs)
      ensures r.Ok? ==> Live(v.fs, r.value)
      ensures r == Follow(strhash, v, root, names)
    {
      NobodyNameless(v.fs);
      r := LookupInode(names, -1);
    }

    /** ramfs_directory_search in d, if it is a directory. */
    method Search(d: int, name: string) returns (r: Result<int>)
      requires Core() && d in v.fs.inodes && (v.fs.inodes[d].dir ==> d in v.tables)
      ensures r == SearchStep(strhash, v, d, name)
    {
      var x := Idata(d);
      assert Owned(d) && Good(d) && TabledAt(strhash, v, d);
      if !x.isDir { return Err(ENOTDIR); }
      r := SearchAt(x, strhash, v.tables[d], name, |name|);
    }

    /** ramfs_link_inode: a name for inode i; its count rises only if the name could be entered. */
    method LinkInode(i: int, d: int, name: string) returns (err: int)
      requires Valid() && 0 < i && Live(v.fs, d)
      modifies Repr
      ensures Valid() && fresh(Repr - old(Repr))
      ensures (v.fs, err) == Link(old(v.fs), i, d, name)
      ensures err != 0 ==> v == old(v)
      ensures err == 0 ==> InTable(strhash, old(v), d) && v == LinkedTo(strhash, old(v), i, d, name)
    {
      var yes := IsDirectory(d);
      if !yes { return ENOTDIR; }
      var x := Idata(i);
      if x == null { return ENOENT; }
      err := EnterLink(i, d, name);
    }

    method EnterLink(i: int, d: int, name: string) returns (err: int)
      requires Valid() && i in v.fs.inodes && Live(v.fs, d) && v.fs.inodes[d].dir
      modifies Repr
      ensures Valid() && fresh(Repr - old(Repr))
      ensures (v.fs, err) == Link(old(v.fs), i, d, name)
      ensures err != 0 ==> v == old(v)
      ensures err == 0 ==> InTable(strhash, old(v), d) && v == LinkedTo(strhash, old(v), i, d, name)
    {
      ghost var v0 := v;
      err := NewEntry(d, name, i);
      if err != 0 { return; }
      LinkedIs(strhash, v0, i, d, name);
      var n := AddLink(i, 1);
    }

    /** ramfs_unlink_inode. */
    method UnlinkInode(p: Path) returns (err: int)
      requires Valid() && Inv(v.fs)
      modifies Repr
      ensures Valid() && fresh(Repr - old(Repr)) && Inv(v.fs)
      ensures (v.fs, err) == UnlinkFrom(old(v.fs), Follow(strhash, old(v), root, p.dirs), p.name)
      ensures ClearPath(strhash, old(v), root, p.dirs) ==> (v.fs, err) == LinkSpec.Unlink(old(v.fs), p)
    {
      ClearLookup(strhash, v, p.dirs);
      err := UnlinkPath(p.dirs, p.name);
    }

    method UnlinkPath(dirs: seq<string>, name: string) returns (err: int)
      requires Valid() && Inv(v.fs)
      modifies Repr
      ensures Valid() && fresh(Repr - old(Repr)) && Inv(v.fs)
      ensures (v.fs, err) == UnlinkFrom(old(v.fs), Follow(strhash, old(v), root, dirs), name)
    {
      var parent := Lookup(dirs);
      if parent.Err? { return parent.error; }
      UnlinkReady(v.fs, parent.value, name);
      err := UnlinkIn(parent.value, name);
    }

    /** The last name of the path, in directory d. */
    method UnlinkIn(d: int, name: string) returns (err: int)
      requires Valid() && Live(v.fs, d) && (Step(v.fs, d, name).Ok? ==> Live(v.fs, Step(v.fs, d, name).value))
      modifies Repr
      ensures Valid() && Repr == old(Repr)
      ensures (v.fs, err) == UnlinkAt(old(v.fs), d, name)
    {
      var r := SearchWhole(d, name);
      if r.Err? { return r.error; }
      var dir := IsDirectory(r.value);
      if dir { return EISDIR; }
      RemoveFile(d, r.value, name);
      err := 0;
    }

    /** ramfs_directory_search with a length beyond the end of the name, if d is a directory. */
    method SearchWhole(d: int, name: string) returns (r: Result<int>)
      requires Valid() && Live(v.fs, d)
      ensures r == Step(v.fs, d, name)
    {
      var y := Idata(d);
      assert Owned(d) && Good(d) && TabledAt(strhash, v, d);
      if !y.isDir { return Err(ENOTDIR); }
      DS.SearchWhole(strhash, v.tables[d], name, |name| + 1);
      EntriesAt(strhash, v.tables[d], name);
      r := SearchAt(y, strhash, v.tables[d], name, |name| + 1);
    }

    /** The entry goes, and with its last name the inode. */
    method RemoveFile(d: int, i: int, name: string)
      requires Valid() && Live(v.fs, d) && Step(v.fs, d, name) == Ok(i) && i in v.fs.inodes
      modifies Repr
      ensures Valid() && Repr == old(Repr)
      ensures d in old(v.fs).inodes && i in old(v.fs).inodes && v.fs == Drop(old(v.fs), d, name, i)
    {
      ghost var v0 := v;
      DeleteEntry(d, name);
      GoneIs(strhash, v0, d, name, i);
      var nlinks := AddLink(i, -1);
      if nlinks <= 0 { FreeInode(i); }
      assert v == Gone(strhash, v0, d, name, i);
    }

    /** vfs_mknod for anything but a directory. */
    method Mknod(p: Path) returns (err: int)
      requires Valid() && Inv(v.fs) && v.fs.next <= INODES
      modifies Repr
      ensures Valid() && fresh(Repr - old(Repr)) && Inv(v.fs)
      ensures (v.fs, err) == MknodFrom(old(v.fs), Follow(strhash, old(v), root, p.dirs), p.name)
      ensures ClearPath(strhash, old(v), root, p.dirs) ==>
                && (v.fs, err) == LinkSpec.Mknod(old(v.fs), p)
                && (err == 0 <==> CanMknod(old(v.fs), p))
    {
      MknodSucceeds(v.fs, p);
      ClearLookup(strhash, v, p.dirs);
      err := MknodPath(p.dirs, p.name);
    }

    method MknodPath(dirs: seq<string>, name: string) returns (err: int)
      requires Valid() && Inv(v.fs) && v.fs.next <= INODES
      modifies Repr
      ensures Valid() && fresh(Repr - old(Repr)) && Inv(v.fs)
      ensures (v.fs, err) == MknodFrom(old(v.fs), Follow(strhash, old(v), root, dirs), name)
    {
      var parent := Lookup(dirs);
      if parent.Ok? { err := MknodLive(parent.value, name); } else { err := parent.error; }
    }

    method MknodLive(d: int, name: string) returns (err: int)
      requires Valid() && Inv(v.fs) && Live(v.fs, d) && v.fs.next <= INODES
      modifies Repr
      ensures Valid() && fresh(Repr - old(Repr)) && Inv(v.fs)
      ensures (v.fs, err) == MknodFrom(old(v.fs), Ok(d), name)
    {
      MknodAtInv(v.fs, d, name);
      err := MknodIn(d, name);
    }

    method MknodIn(d: int, name: string) returns (err: int)
      requires Valid() && Live(v.fs, d) && v.fs.next <= INODES
      modifies Repr
      ensures Valid() && fresh(Repr - old(Repr)) && (v.fs, err) == MknodAt(old(v.fs), d, name)
    {
      var dir := IsDirectory(d);
      if !dir { return ENOTDIR; }
      err := NewName(d, name);
    }

    /** ramfs_make_node, and a name for it in directory d. */
    method NewName(d: int, name: string) returns (err: int)
      requires Valid() && Live(v.fs, d) && v.fs.next <= INODES
      modifies Repr
      ensures Valid() && fresh(Repr - old(Repr)) && (v.fs, err) == Link(Make(old(v.fs), false), old(v.fs.next), d, name)
    {
      var i := NewFile(d);
      err := LinkInode(i, d, name);
    }

    /** ramfs_make_node; directory d is as before. */
    method NewFile(ghost d: int) returns (i: int)
      requires Valid() && Live(v.fs, d) && v.fs.next <= INODES
      modifies Repr
      ensures Valid() && fresh(Repr - old(Repr)) && 0 < i == old(v.fs.next) && v.fs == Make(old(v.fs), false)
      ensures Live(v.fs, d) && v.fs.inodes[d] == old(v.fs).inodes[d]
    {
      StoreComplete(v, LinkSpec.Inode(false, 0, map[], false), d);
      var x;
      x, i := NewInode(false);
    }

    /** vfs_hardlink. */
    method Hardlink(from: Path, to: Path) returns (err: int)
      requires Valid() && Inv(v.fs)
      modifies Repr
      ensures Valid() && fresh(Repr - old(Repr)) && Inv(v.fs)
      ensures LinkedBy(strhash, old(v), v, from, to, err)
      ensures ClearPath(strhash, old(v), root, from.dirs + [from.name]) && ClearPath(strhash, old(v), root, to.dirs) ==>
                && (v.fs, err) == LinkSpec.Hardlink(old(v.fs), from, to)
                && (err == 0 ==> ClearPath(strhash, v, root, from.dirs))
    {
      ghost var v0 := v;
      ClearLookup(strhash, v, from.dirs + [from.name]);
      ClearLookup(strhash, v, to.dirs);
      err := LinkPaths(from.dirs + [from.name], to);
      LinkedByClear(strhash, v0, v, from, to, err);
    }

    method LinkPaths(path: seq<string>, to: Path) returns (err: int)
      requires Valid() && Inv(v.fs)
      modifies Repr
      ensures Valid() && fresh(Repr - old(Repr)) && Inv(v.fs)
      ensures LinkedAt(strhash, old(v), v, path, to, err)
    {
      var i, d;
      err, i, d := BothPaths(path, to);
      if err == 0 { err := LinkLive(i, d, path, to); }
    }

    /** The inode and the directory that a link is about, or the error of the first path that leads nowhere. */
    method BothPaths(path: seq<string>, to: Path) returns (err: int, i: int, d: int)
      requires Valid() && Inv(v.fs)
      ensures err != 0 ==> LinkedAt(strhash, v, v, path, to, err)
      ensures err == 0 ==> Follow(strhash, v, root, path) == Ok(i) && Live(v.fs, i)
      ensures err == 0 ==> Follow(strhash, v, root, to.dirs) == Ok(d) && Live(v.fs, d)
    {
      i, d := 0, 0;
      var target := Lookup(path);
      if target.Err? { return target.error, 0, 0; }
      var parent := Lookup(to.dirs);
      if parent.Err? { return parent.error, 0, 0; }
      err, i, d := 0, target.value, parent.value;
    }

    method LinkLive(i: int, d: int, ghost path: seq<string>, to: Path) returns (err: int)
      requires Valid() && Inv(v.fs) && Live(v.fs, i) && Live(v.fs, d)
      requires Follow(strhash, v, root, path) == Ok(i) && Follow(strhash, v, root, to.dirs) == Ok(d)
      modifies Repr
      ensures Valid() && fresh(Repr - old(Repr)) && Inv(v.fs)
      ensures LinkedAt(strhash, old(v), v, path, to, err)
    {
      ghost var v0 := v;
      LinkInv(v.fs, i, d, to.name);
      err := LinkInode(i, d, to.name);
      LinkedAtOk(strhash, v0, v, path, to, i, d, err);
    }

    /** vfs_rename: a second name, then the first one goes; u is the volume in between. */
    method Rename(from: Path, to: Path) returns (err: int, ghost u: Vol, ghost first: int)
      requires Valid() && Inv(v.fs)
      modifies Repr
      ensures Valid() && fresh(Repr - old(Repr)) && Inv(v.fs)
      ensures LinkedBy(strhash, old(v), u, from, to, first) && (first != 0 ==> err == first && v == u)
      ensures first == 0 ==> (v.fs, err) == UnlinkFrom(u.fs, Follow(strhash, u, root, from.dirs), from.name)
      ensures ClearPath(strhash, old(v), root, from.dirs + [from.name]) && ClearPath(strhash, old(v), root, to.dirs) ==>
                && (v.fs, err) == LinkSpec.Rename(old(v.fs), from, to)
                && (err == 0 <==> CanRename(old(v.fs), from, to))
    {
      RenameSucceeds(v.fs, from, to);
      err := Hardlink(from, to);
      u, first := v, err;
      if err != 0 { return; }
      err := UnlinkInode(from);
    }

    // The steps of ramfs_make_directory on its new inode. One that the tree has not stored is seen by nobody.

    method LinkNew(i: int)
      requires Core() && (i in v.fs.inodes <==> i < INODES)
      modifies Repr
      ensures Core() && Repr == old(Repr) && v == if i < INODES then Recounted(old(v), i, 1) else old(v)
    {
      if i < INODES { var n := AddLink(i, 1); }
    }

    method FreeNew(i: int)
      requires Core() && (i in v.fs.inodes <==> i < INODES)
      modifies Repr
      ensures Core() && Repr == old(Repr) && v == if i < INODES then WithFreed(old(v), i) else old(v)
    {
      if i < INODES { FreeInode(i); }
    }

    method SetNew(i: int, dir: D.Directory, ghost table: Table, ghost repr: set<object>)
      requires Core() && (i in v.fs.inodes <==> i < INODES) && i !in v.tables
      requires DirIs(strhash, dir, table, repr) && Parts(repr) && repr !! Repr && DS.TableOk(strhash, table)
      modifies Repr
      ensures Core() && Repr <= old(Repr) + repr
      ensures v == if i < INODES then Attached(strhash, old(v), i, table) else old(v)
    {
      if i < INODES { SetData(i, dir, table, repr); }
    }

    /** The parent's entry and the first link. The link is taken whether or not the name was free. */
    method NameDirectory(d: int, name: string, i: int, ghost v0: Vol)
      requires Core() && InTable(strhash, v0, d) && v0.fs.next !in v0.fs.inodes && v0.fs.next !in v0.tables
      requires v == v0.(fs := Make(v0.fs, true)) && i == v0.fs.next
      modifies Repr
      ensures Core() && fresh(Repr - old(Repr)) && v == Named(strhash, v0, d, name)
    {
      var err := NewEntry(d, name, i);
      LinkNew(i);
    }

    /** Its own name for itself, its table and the second link. */
    method FillDirectory(i: int, dir: D.Directory, ghost table: Table, ghost repr: set<object>) returns (ghost t: Table)
      requires Core() && (i in v.fs.inodes <==> i < INODES) && i !in v.tables
      requires DirIs(strhash, dir, table, repr) && Parts(repr) && repr !! Repr && DS.TableOk(strhash, table)
      requires Entries(strhash, table) == map[]
      modifies Repr, repr
      ensures Core() && fresh(Repr - old(Repr) - repr) && DS.TableOk(strhash, t) && Entries(strhash, t) == map["." := i]
      ensures v == WithTable(strhash, old(v), i, t)
    {
      ghost var own;
      t, own := AddTo(dir, strhash, table, repr, ".", i);
      SetNew(i, dir, t, own);
      LinkNew(i);
    }

    /** ramfs_make_directory below the root. */
    method MakeDirectory(p: Path) returns (err: int)
      requires Valid() && Inv(v.fs) && v.fs.next <= INODES
      modifies Repr
      ensures Valid() && fresh(Repr - old(Repr))
      ensures (v.fs, err) == MkdirFrom(old(v.fs), Follow(strhash, old(v), root, p.dirs), p.name)
      ensures ClearPath(strhash, old(v), root, p.dirs) ==>
                && (v.fs, err) == Mkdir(old(v.fs), p)
                && (Inv(v.fs) <==> MkdirFits(old(v.fs), p))
    {
      MkdirExact(v.fs, p);
      ClearLookup(strhash, v, p.dirs);
      err := NewDirectoryAt(p);
    }

    method NewDirectoryAt(p: Path) returns (err: int)
      requires Valid() && Inv(v.fs) && v.fs.next <= INODES
      modifies Repr
      ensures Valid() && fresh(Repr - old(Repr))
      ensures (v.fs, err) == MkdirFrom(old(v.fs), Follow(strhash, old(v), root, p.dirs), p.name)
    {
      ghost var v0 := v;
      var parent, i := StartDirectory(p.dirs);
      if parent.Err? { return parent.error; }
      err := PutDirectory(parent.value, p.name, i, v0);
    }

    /** The inode, and the parent; without a parent the inode goes again. */
    method StartDirectory(names: seq<string>) returns (parent: Result<int>, i: int)
      requires Valid() && Inv(v.fs) && v.fs.next <= INODES
      modifies Repr
      ensures Core() && fresh(Repr - old(Repr)) && Before(strhash, old(v)) && i == old(v.fs).next
      ensures parent == Follow(strhash, old(v), root, names)
      ensures parent.Err? ==> parent.error != 0 && Valid() && v.fs == Waste(old(v.fs))
      ensures parent.Ok? ==> v == old(v).(fs := Make(old(v.fs), true)) && Live(old(v.fs), parent.value)
    {
      NextIsNew(v.fs);
      DirectoryWasted(v);
      i := NewDirInode(names);
      parent := LookupInode(names, i);
      if parent.Err? { FreeNew(i); }
    }

    /** An inode for a directory; every path leads where it led, and none to the new inode. */
    method NewDirInode(ghost names: seq<string>) returns (i: int)
      requires Valid() && Inv(v.fs) && v.fs.next <= INODES
      modifies Repr
      ensures Core() && fresh(Repr - old(Repr)) && i == old(v.fs).next && v == old(v).(fs := Make(old(v.fs), true))
      ensures Inv(v.fs) && Complete(v, i) && Nameless(v.fs, i)
      ensures Follow(strhash, v, root, names) == Follow(strhash, old(v), root, names)
    {
      NextIsNew(v.fs);
      MadeDirectory(strhash, v, names);
      var x;
      x, i := NewInode(true);
    }

    /** The rest of it, once the parent is known. */
    method PutDirectory(d: int, name: string, i: int, ghost v0: Vol) returns (err: int)
      requires Core() && Before(strhash, v0) && Live(v0.fs, d) && v == v0.(fs := Make(v0.fs, true)) && i == v0.fs.next
      modifies Repr
      ensures Valid() && fresh(Repr - old(Repr))
      ensures if v0.fs.inodes[d].dir then v.fs == NewDirectory(v0.fs, d, name) && err == 0
              else v.fs == Waste(v0.fs) && err == ENOTDIR
    {
      var yes := IsDirectory(d);
      if !yes {
        DirectoryWasted(v0);
        FreeNew(i);
        return ENOTDIR;
      }
      BuildDirectory(d, name, i, v0);
      err := 0;
    }

    method BuildDirectory(d: int, name: string, i: int, ghost v0: Vol)
      requires Core() && Before(strhash, v0) && Live(v0.fs, d) && v0.fs.inodes[d].dir
      requires v == v0.(fs := Make(v0.fs, true)) && i == v0.fs.next
      modifies Repr
      ensures Valid() && fresh(Repr - old(Repr)) && v.fs == NewDirectory(v0.fs, d, name)
    {
      assert TabledAt(strhash, v0, d);
      NameDirectory(d, name, i, v0);
      var dir;
      ghost var table, repr;
      dir, table, repr := NewDirectoryData(strhash);
      ghost var t := FillDirectory(i, dir, table, repr);
      DirectoryDone(strhash, v0, d, name, t);
    }
  }

  /** ramfs_read_superblock: index 0 is taken, and the root directory is its own parent. */
  method Mount(h: string -> nat) returns (vol: RamVolume)
    ensures vol.Valid() && fresh(vol.Repr) && vol.strhash == h && vol.v.fs == Mounted() && Inv(vol.v.fs)
  {
    vol := Bare(h);
    vol.MakeRoot();
    MountedInv();
  }

  /** ramfs_data_new. */
  method Bare(h: string -> nat) returns (vol: RamVolume)
    ensures vol.Core() && fresh(vol.Repr) && vol.strhash == h && vol.root == 1 && vol.v == BARE
  {
    var x := new INode(false);
    var t := NewTree();
    vol := new RamVolume(h, t, x);
    vol.BareCore();
  }

  /** A tree with index 0 taken. */
  method NewTree() returns (t: T.BNode)
    ensures t.Valid() && t.fanout == INODES && t.tree == TreeOf(1) && fresh(t.Repr)
  {
    t := new T.BNode(INODES);
    TreeFirst();
    FlatOk(0);
    var r := t.SetLeaf(0);
  }

  /** The root directory's table: both names lead to itself. */
  method RootData(h: string -> nat) returns (dir: D.Directory, ghost table: Table, ghost repr: set<object>)
    ensures DirIs(h, dir, table, repr) && Parts(repr) && fresh(repr) && DS.TableOk(h, table)
    ensures Entries(h, table) == map[".." := 1, "." := 1]
  {
    dir, table, repr := NewDirectoryData(h);
    table, repr := AddTo(dir, h, table, repr, "..", 1);
    table, repr := AddTo(dir, h, table, repr, ".", 1);
  }

  /** ramfs_directory_new. */
  method NewDirectoryData(h: string -> nat) returns (dir: D.Directory, ghost table: Table, ghost repr: set<object>)
    ensures DirIs(h, dir, table, repr) && Parts(repr) && fresh(repr)
    ensures DS.TableOk(h, table) && Entries(h, table) == map[]
  {
    dir := new D.Directory(h);
    table, repr := dir.table, {dir, dir.ht};
    EntriesEmpty(h, table);
  }

  /** ramfs_directory_new_entry in a directory that has no inode yet. */
  method AddTo(dir: D.Directory, h: string -> nat, ghost table: Table, ghost repr: set<object>, name: string, ino: int)
    returns (ghost table': Table, ghost repr': set<object>)
    requires DirIs(h, dir, table, repr) && Parts(repr) && DS.TableOk(h, table) && name !in Entries(h, table)
    modifies repr
    ensures DirIs(h, dir, table', repr') && Parts(repr') && repr <= repr'
    ensures fresh(repr' - repr) && DS.TableOk(h, table')
    ensures Entries(h, table') == Entries(h, table)[name := ino]
  {
    EntriesAt(h, table, name);
    var de := new D.DirEntry(h(name), name, ino);
    var err := dir.Insert(de);
    table', repr' := dir.table, repr + {de};
    EntriesBound(h, table, table', name, ino);
  }

  /** Searching the directory of an inode. */
  method SearchAt(x: INode, h: string -> nat, ghost table: Table, name: string, n: nat) returns (r: Result<int>)
    requires x.data != null && DirIs(h, x.data, table, x.repr) && |table| == DS.BUCKETS
    ensures r == match DS.Search(h, table, name, n) case None => Err(2) case Some(i) => Ok(i)
  {
    var err, i := x.data.SearchFor(name, n);
    r := if err != 0 then Err(err) else Ok(i);
  }

  /** Deleting a name from the directory of an inode. */
  method DeleteAt(x: INode, h: string -> nat, ghost table: Table, name: string)
    requires x.data != null && DirIs(h, x.data, table, x.repr) && Parts(x.repr)
    requires |table| == DS.BUCKETS && DS.Lookup(h, table, name).Some?
    modifies x.repr
    ensures x.data != null && DirIs(h, x.data, DS.Removed(h, table, name), x.repr)
  {
    var err := x.data.Delete(name, |name| + 1);
  }

  /** Inserting a name into the directory of an inode. */
  method InsertAt(x: INode, h: string -> nat, ghost table: Table, name: string, ino: int) returns (err: int)
    requires x.data != null && DirIs(h, x.data, table, x.repr) && Parts(x.repr)
    modifies x.repr, x`repr
    ensures Parts(x.repr) && old(x.repr) <= x.repr && fresh(x.repr - old(x.repr)) && |table| == DS.BUCKETS
    ensures DS.Lookup(h, table, name).Some? ==> err == EEXIST && DirIs(h, x.data, table, x.repr)
    ensures DS.Lookup(h, table, name).None? ==>
              err == 0 && DirIs(h, x.data, DS.Append(table, DS.Bucket(h, name), DS.Entry(h(name), name, ino)), x.repr)
  {
    var de := new D.DirEntry(h(name), name, ino);
    err := x.data.Insert(de);
    x.repr := x.repr + {de};
  }
}
