/**
 What stands behind the maps of LinkSpec: a hash table for each directory and the inode tree (src/fs/ramfs.c).
 */
module VolumeSpec {
  import opened Options
  import opened LinkSpec
  import DS = RamfsDirSpec
  import TS = InodeTreeSpec

  type Table = seq<DS.Chain>

  // ---------- a table as a map ----------

  function Names(t: Table): set<string> { set b, i | 0 <= b < |t| && 0 <= i < |t[b]| :: t[b][i].name }

  function Entries(h: string -> nat, t: Table): map<string, int>
    requires |t| == DS.BUCKETS
  {
    map name | name in Names(t) && DS.Lookup(h, t, name).Some? :: DS.Lookup(h, t, name).value
  }

  lemma EntriesAt(h: string -> nat, t: Table, name: string)
    requires |t| == DS.BUCKETS
    ensures name in Entries(h, t) <==> DS.Lookup(h, t, name).Some?
    ensures name in Entries(h, t) ==> DS.Lookup(h, t, name) == Some(Entries(h, t)[name])
  {
    var b := DS.Bucket(h, name);
    var k := DS.Find(t[b], name);
    if k >= 0 { assert t[b][k].name in Names(t); }
  }

  lemma EntriesEmpty(h: string -> nat, t: Table)
    requires |t| == DS.BUCKETS && forall name :: DS.Lookup(h, t, name).None?
    ensures Entries(h, t) == map[]
  {}

  lemma EntriesBound(h: string -> nat, t: Table, t': Table, name: string, ino: int)
    requires |t| == |t'| == DS.BUCKETS
    requires forall n :: DS.Lookup(h, t', n) == if n == name then Some(ino) else DS.Lookup(h, t, n)
    ensures Entries(h, t') == Entries(h, t)[name := ino]
  {
    var e, e' := Entries(h, t), Entries(h, t');
    forall n ensures n in e' <==> n == name || n in e { EntriesAt(h, t, n); EntriesAt(h, t', n); }
    forall n | n in e' ensures e'[n] == e[name := ino][n] { EntriesAt(h, t, n); EntriesAt(h, t', n); }
  }

  lemma EntriesUnbound(h: string -> nat, t: Table, t': Table, name: string)
    requires |t| == |t'| == DS.BUCKETS
    requires forall n :: DS.Lookup(h, t', n) == if n == name then None else DS.Lookup(h, t, n)
    ensures Entries(h, t') == Entries(h, t) - {name}
  {
    var e, e' := Entries(h, t), Entries(h, t');
    forall n ensures n in e' <==> n != name && n in e { EntriesAt(h, t, n); EntriesAt(h, t', n); }
    forall n | n in e' ensures e'[n] == e[n] { EntriesAt(h, t, n); EntriesAt(h, t', n); }
  }

  // ---------- the tree ----------

  function Slots(n: nat, m: nat): (s: seq<TS.Slot>)
    ensures |s| == m
  {
    seq(m, i => if i < n then TS.Leaf(i) else TS.Empty)
  }

  /** The root node with its first n slots taken, each by the inode of that index. */
  function Flat(n: nat): TS.Tree { TS.Node(0, n, Slots(n, INODES)) }

  /** The tree after n indices have been handed out, up to the first that it has no room for. */
  function TreeOf(n: nat): TS.Tree { if n <= INODES then Flat(n) else TS.Grow(Flat(INODES), INODES) }

  lemma {:induction false} FilledSlots(n: nat, m: nat)
    requires n <= m
    ensures TS.Filled(Slots(n, m)) == n
  {
    FilledFrom(n, m, 0);
    assert Slots(n, m)[0..] == Slots(n, m);
  }

  lemma {:induction false} FilledFrom(n: nat, m: nat, k: nat)
    requires k <= m && n <= m
    ensures TS.Filled(Slots(n, m)[k..]) == if k < n then n - k else 0
    decreases m - k
  {
    var s := Slots(n, m);
    if k < m {
      FilledFrom(n, m, k + 1);
      assert s[k..][1..] == s[k + 1..] && s[k..][0] == s[k];
    }
  }

  lemma FlatOk(n: nat)
    requires n <= INODES
    ensures TS.Shaped(Flat(n), INODES) && TS.Uniform(Flat(n))
  {
    FilledSlots(n, INODES);
    forall i | 0 <= i < INODES ensures TS.SlotShaped(Flat(n), INODES, i) && TS.LevelOk(Flat(n), i) {}
  }

  lemma TreeOk(n: nat)
    requires n <= INODES + 1
    ensures TS.Shaped(TreeOf(n), INODES) && TS.Uniform(TreeOf(n)) && TS.Proper(TreeOf(n), TreeOf(n).level)
  {
    if n <= INODES {
      FlatOk(n);
    } else {
      FlatOk(INODES);
      TS.GrowShaped(Flat(INODES), INODES);
      TS.GrowUniform(Flat(INODES), INODES);
    }
    TS.UniformProper(TreeOf(n));
  }

  /** The next inode gets the next index; the first one too many is not stored. */
  lemma TreeNext(n: nat, ino: int)
    requires 0 < n <= INODES && (n < INODES ==> ino == n)
    ensures TS.NewLeaf(TreeOf(n), INODES, ino) == (TreeOf(n + 1), n)
  {
    FlatOk(n);
    if n < INODES {
      TS.NextIndex(Flat(n), INODES, ino, n);
      assert Slots(n, INODES)[n := TS.Leaf(n)] == Slots(n + 1, INODES);
    } else {
      assert TS.Pow(INODES, 1) == INODES * TS.Pow(INODES, 0);
    }
  }

  lemma TreeFirst()
    ensures TS.Node(0, 0, TS.Empties(INODES)) == Flat(0) && TS.SetLeaf(Flat(0), INODES, 0) == (Flat(1), 0)
  {
    FlatOk(0);
    assert TS.Empties(INODES) == Slots(0, INODES);
    TS.NextIndex(Flat(0), INODES, 0, 0);
    assert Slots(0, INODES)[0 := TS.Leaf(0)] == Slots(1, INODES);
  }

  lemma TreeLookup(n: nat, i: nat)
    requires n <= INODES + 1
    ensures TS.Shaped(TreeOf(n), INODES)
    ensures TS.Lookup(TreeOf(n), INODES, i) == if i < n && i < INODES then TS.Leaf(i) else TS.Empty
  {
    TreeOk(n);
    assert TS.Pow(INODES, 1) == INODES * TS.Pow(INODES, 0);
    if n > INODES {
      FlatOk(INODES);
      assert TS.Pow(INODES, 2) == INODES * TS.Pow(INODES, 1);
      if i < TS.Pow(INODES, 2) { TS.GrowGet(Flat(INODES), INODES, i); }
    }
  }

  // ---------- the volume ----------

  datatype Vol = Vol(fs: Fs, tables: map<int, Table>)

  /** Each inode's map is what its table stands for; without a table it is empty. */
  ghost predicate TabledAt(h: string -> nat, v: Vol, i: int)
    requires i in v.fs.inodes
  {
    if i in v.tables then DS.TableOk(h, v.tables[i]) && v.fs.inodes[i].entries == Entries(h, v.tables[i])
    else v.fs.inodes[i].entries == map[]
  }

  ghost predicate Tabled(h: string -> nat, v: Vol) {
    forall i :: i in v.fs.inodes ==> TabledAt(h, v, i)
  }

  /** Every directory that is alive, but perhaps one, has its table. */
  ghost predicate Complete(v: Vol, skip: int) {
    forall i :: i in v.fs.inodes && v.fs.inodes[i].dir && !v.fs.inodes[i].freed && i != skip ==> i in v.tables
  }

  ghost predicate Nameless(fs: Fs, i: int) { i != fs.root && Degree(fs, i) == 0 }

  predicate Live(fs: Fs, i: int) { i in fs.inodes && !fs.inodes[i].freed }

  lemma UnlinkReady(fs: Fs, d: int, name: string)
    requires Inv(fs)
    ensures Inv(UnlinkAt(fs, d, name).0) && (Step(fs, d, name).Ok? ==> Live(fs, Step(fs, d, name).value))
  {
    UnlinkAtInv(fs, d, name);
    if Step(fs, d, name).Ok? { StepLive(fs, d, name); }
  }

  lemma NobodyNameless(fs: Fs)
    requires Inv(fs)
    ensures Nameless(fs, -1)
  {
    forall d | d in fs.inodes ensures d != -1 { assert Sane(fs, d); }
    forall r | r in Refs(fs, -1) ensures -1 in fs.inodes { assert Sane(fs, r.0); }
    assert Refs(fs, -1) == {};
  }

  /** No longer name of the same hash stands in front of this one in its bucket of directory d. */
  ghost predicate ClearStep(h: string -> nat, v: Vol, d: int, name: string) {
    d in v.tables && |v.tables[d]| == DS.BUCKETS ==> DS.Clear(h, v.tables[d], name, |name|)
  }

  ghost predicate ClearPath(h: string -> nat, v: Vol, d: int, names: seq<string>)
    decreases |names|
  {
    names == [] ||
    (ClearStep(h, v, d, names[0]) &&
     (Step(v.fs, d, names[0]).Ok? ==> ClearPath(h, v, Step(v.fs, d, names[0]).value, names[1..])))
  }

  /** What the search for a name in directory d answers, shadowed or not. */
  function SearchStep(h: string -> nat, v: Vol, d: int, name: string): (r: Result<int>)
    ensures r.Err? ==> r.error != 0
  {
    if d !in v.fs.inodes then Err(1)
    else if !v.fs.inodes[d].dir then Err(20)
    else if d !in v.tables || |v.tables[d]| != DS.BUCKETS then Err(1)
    else match DS.Search(h, v.tables[d], name, |name|) case None => Err(2) case Some(i) => Ok(i)
  }

  /** The entry has the hash of the name and begins with it. */
  predicate Takes(h: string -> nat, e: DS.Entry, name: string) { e.hash == h(name) && name <= e.name }

  /** It answers with the first entry in the bucket of the name that has its hash and begins with it. */
  lemma SearchTakes(h: string -> nat, v: Vol, d: int, name: string)
    requires d in v.fs.inodes && v.fs.inodes[d].dir && d in v.tables && |v.tables[d]| == 8
    ensures var c := v.tables[d][h(name) % 8];
            && (SearchStep(h, v, d, name) == Err(2) <==> forall i :: 0 <= i < |c| ==> !Takes(h, c[i], name))
            && (SearchStep(h, v, d, name).Ok? ==>
                  exists i :: 0 <= i < |c| && Takes(h, c[i], name) && SearchStep(h, v, d, name) == Ok(c[i].ino) &&
                              forall j :: 0 <= j < i ==> !Takes(h, c[j], name))
  {
    var c := v.tables[d][h(name) % 8];
    DS.SearchFinds(h, v.tables[d], name, |name|);
    forall i | 0 <= i < |c| ensures Takes(h, c[i], name) == DS.Answers(c[i], h(name), name, |name|) {}
  }

  /** Where these searches lead from directory d on. */
  function Follow(h: string -> nat, v: Vol, d: int, names: seq<string>): (r: Result<int>)
    ensures r.Err? ==> r.error != 0
    decreases |names|
  {
    if names == [] then Ok(d)
    else
      match SearchStep(h, v, d, names[0])
      case Err(e) => Err(e)
      case Ok(i) => Follow(h, v, i, names[1..])
  }

  /** A search that nothing stands in front of is a step of the map. */
  lemma ClearIsStep(h: string -> nat, v: Vol, d: int, name: string)
    requires Tabled(h, v) && d in v.fs.inodes && v.fs.inodes[d].dir && d in v.tables && |v.tables[d]| == DS.BUCKETS
    requires ClearStep(h, v, d, name)
    ensures Step(v.fs, d, name)
         == match DS.Search(h, v.tables[d], name, |name|) case None => Err(ENOENT) case Some(i) => Ok(i)
  {
    assert TabledAt(h, v, d);
    DS.SearchRight(h, v.tables[d], name, |name|);
    EntriesAt(h, v.tables[d], name);
  }

  /** Whatever a search finds is an inode that is alive. */
  lemma FoundLive(h: string -> nat, v: Vol, d: int, name: string, n: nat)
    requires Tabled(h, v) && Inv(v.fs) && d in v.fs.inodes && d in v.tables && |v.tables[d]| == DS.BUCKETS
    requires DS.Search(h, v.tables[d], name, n).Some?
    ensures var i := DS.Search(h, v.tables[d], name, n).value; Live(v.fs, i) && Degree(v.fs, i) > 0
  {
    assert TabledAt(h, v, d) && Sane(v.fs, d);
    var p, t := DS.Trunc(name, n), v.tables[d];
    var b := DS.Bucket(h, p);
    var c := t[b];
    var k := DS.FirstHit(c, h(p), p, n);
    assert DS.ChainOk(h, c, b) && DS.Placed(h, c, b, k);
    DS.FindUnique(c, c[k].name, k);
    EntriesAt(h, t, c[k].name);
    StepLive(v.fs, d, c[k].name);
    DegreePositive(v.fs, d, c[k].name, c[k].ino);
  }

  ghost predicate InTable(h: string -> nat, v: Vol, k: int) {
    k in v.fs.inodes && k in v.tables && DS.TableOk(h, v.tables[k])
  }

  /** The volume with a new name in directory k. */
  function Entered(h: string -> nat, v: Vol, k: int, name: string, ino: int): Vol
    requires InTable(h, v, k)
  {
    Vol(Bind(v.fs, k, name, ino),
        v.tables[k := DS.Append(v.tables[k], DS.Bucket(h, name), DS.Entry(h(name), name, ino))])
  }

  /** The two differ in inode k alone. */
  predicate SameBut(v: Vol, w: Vol, k: int) {
    && w.fs.root == v.fs.root && w.fs.next == v.fs.next && w.fs.inodes.Keys == v.fs.inodes.Keys
    && (forall i :: i in w.tables && i != k ==> i in v.tables && w.tables[i] == v.tables[i])
    && (forall i :: i in v.tables && i != k ==> i in w.tables)
    && (forall i :: i in v.fs.inodes && i != k ==> w.fs.inodes[i] == v.fs.inodes[i])
  }

  lemma EnteredTabled(h: string -> nat, v: Vol, k: int, name: string, ino: int)
    requires Tabled(h, v) && InTable(h, v, k) && name !in v.fs.inodes[k].entries
    ensures Tabled(h, Entered(h, v, k, name, ino)) && SameBut(v, Entered(h, v, k, name, ino), k)
  {
    var u, t, e := Entered(h, v, k, name, ino), v.tables[k], DS.Entry(h(name), name, ino);
    assert TabledAt(h, v, k);
    EntriesAt(h, t, name);
    DS.AppendKeeps(h, t, e);
    forall n ensures DS.Lookup(h, u.tables[k], n) == if n == name then Some(ino) else DS.Lookup(h, t, n) {
      DS.AppendLookup(h, t, e, n);
    }
    EntriesBound(h, t, u.tables[k], name, ino);
    forall i | i in u.fs.inodes ensures TabledAt(h, u, i) { assert TabledAt(h, v, i); }
  }

  /** The volume without this name in directory k. */
  function Dropped(h: string -> nat, v: Vol, k: int, name: string): Vol
    requires InTable(h, v, k) && DS.Lookup(h, v.tables[k], name).Some?
  {
    Vol(Unbind(v.fs, k, name), v.tables[k := DS.Removed(h, v.tables[k], name)])
  }

  lemma DroppedTabled(h: string -> nat, v: Vol, k: int, name: string)
    requires Tabled(h, v) && InTable(h, v, k) && DS.Lookup(h, v.tables[k], name).Some?
    ensures Tabled(h, Dropped(h, v, k, name)) && SameBut(v, Dropped(h, v, k, name), k)
  {
    var u, t := Dropped(h, v, k, name), v.tables[k];
    var b := DS.Bucket(h, name);
    var f := DS.Find(t[b], name);
    assert TabledAt(h, v, k);
    DS.WithoutKeeps(h, t, b, f);
    forall n ensures DS.Lookup(h, u.tables[k], n) == if n == name then None else DS.Lookup(h, t, n) {
      DS.WithoutLookup(h, t, f, name, n);
    }
    EntriesUnbound(h, t, u.tables[k], name);
    forall i | i in u.fs.inodes ensures TabledAt(h, u, i) { assert TabledAt(h, v, i); }
  }

  /** The volume with another link count, or with an inode freed. */
  function Recounted(v: Vol, i: int, n: int): Vol
    requires i in v.fs.inodes
  {
    v.(fs := AddLinks(v.fs, i, n))
  }

  function WithFreed(v: Vol, i: int): Vol
    requires i in v.fs.inodes
  {
    v.(fs := Free(v.fs, i))
  }

  lemma CountTabled(h: string -> nat, v: Vol, i: int, n: int)
    requires Tabled(h, v) && i in v.fs.inodes
    ensures Tabled(h, Recounted(v, i, n)) && SameBut(v, Recounted(v, i, n), i)
    ensures Tabled(h, WithFreed(v, i)) && SameBut(v, WithFreed(v, i), i)
  {
    var u, w := Recounted(v, i, n), WithFreed(v, i);
    forall k | k in u.fs.inodes ensures TabledAt(h, u, k) { assert TabledAt(h, v, k); }
    forall k | k in w.fs.inodes ensures TabledAt(h, w, k) { assert TabledAt(h, v, k); }
  }

  /** The volume with a further name for inode i. */
  function LinkedTo(h: string -> nat, v: Vol, i: int, d: int, name: string): Vol
    requires InTable(h, v, d) && i in v.fs.inodes
  {
    Recounted(Entered(h, v, d, name, i), i, 1)
  }

  /** The volume without this name of inode i, and without the inode if that was its last. */
  function Gone(h: string -> nat, v: Vol, d: int, name: string, i: int): Vol
    requires InTable(h, v, d) && DS.Lookup(h, v.tables[d], name).Some? && i in v.fs.inodes
  {
    var u := Recounted(Dropped(h, v, d, name), i, -1);
    if u.fs.inodes[i].nlinks > 0 then u else WithFreed(u, i)
  }

  lemma GoneIs(h: string -> nat, v: Vol, d: int, name: string, i: int)
    requires InTable(h, v, d) && DS.Lookup(h, v.tables[d], name).Some? && i in v.fs.inodes && Complete(v, -1)
    ensures Gone(h, v, d, name, i).fs == Drop(v.fs, d, name, i) && Complete(Gone(h, v, d, name, i), -1)
  {}

  lemma LinkedIs(h: string -> nat, v: Vol, i: int, d: int, name: string)
    requires InTable(h, v, d) && i in v.fs.inodes && Complete(v, -1)
    requires v.fs.inodes[d].dir && name !in v.fs.inodes[d].entries
    ensures Link(v.fs, i, d, name) == (LinkedTo(h, v, i, d, name).fs, 0) && Complete(LinkedTo(h, v, i, d, name), -1)
  {}

  /** The volume with a table for an inode that had none. */
  function Attached(h: string -> nat, v: Vol, i: int, t: Table): Vol
    requires i in v.fs.inodes && |t| == DS.BUCKETS
  {
    Vol(v.fs.(inodes := v.fs.inodes[i := v.fs.inodes[i].(entries := Entries(h, t))]), v.tables[i := t])
  }

  lemma AttachedTabled(h: string -> nat, v: Vol, i: int, t: Table)
    requires Tabled(h, v) && i in v.fs.inodes && DS.TableOk(h, t)
    ensures Tabled(h, Attached(h, v, i, t)) && SameBut(v, Attached(h, v, i, t), i)
  {
    var u := Attached(h, v, i, t);
    forall k | k in u.fs.inodes ensures TabledAt(h, u, k) { assert TabledAt(h, v, k); }
  }

  /** A search in directory d finds an inode that is alive, and not `skip`, one without a name. */
  lemma SearchMeans(h: string -> nat, v: Vol, d: int, name: string, skip: int)
    requires Tabled(h, v) && Inv(v.fs) && Nameless(v.fs, skip)
    ensures var s := SearchStep(h, v, d, name); s.Ok? ==> Live(v.fs, s.value) && s.value != skip
  {
    if SearchStep(h, v, d, name).Ok? { FoundLive(h, v, d, name, |name|); }
  }

  /** The searches along a path lead where its names do, if nothing stands in front of them. */
  lemma {:induction false} ClearFollow(h: string -> nat, v: Vol, d: int, names: seq<string>)
    requires Tabled(h, v) && Inv(v.fs) && Complete(v, -1) && Live(v.fs, d) && ClearPath(h, v, d, names)
    ensures Follow(h, v, d, names) == Resolve(v.fs, d, names)
    decreases |names|
  {
    if names != [] {
      assert Sane(v.fs, d) && TabledAt(h, v, d);
      if v.fs.inodes[d].dir { ClearIsStep(h, v, d, names[0]); }
      var s := Step(v.fs, d, names[0]);
      if s.Ok? {
        StepLive(v.fs, d, names[0]);
        ClearFollow(h, v, s.value, names[1..]);
      }
    }
  }

  /** From the root of a volume in order. */
  lemma ClearLookup(h: string -> nat, v: Vol, names: seq<string>)
    requires Tabled(h, v) && Inv(v.fs) && Complete(v, -1)
    ensures ClearPath(h, v, v.fs.root, names) ==> Follow(h, v, v.fs.root, names) == Resolve(v.fs, v.fs.root, names)
  {
    assert Sane(v.fs, v.fs.root);
    if ClearPath(h, v, v.fs.root, names) { ClearFollow(h, v, v.fs.root, names); }
  }

  /** A new entry comes last in its bucket and so stands in front of none that is bound. */
  lemma ClearAppended(h: string -> nat, t: Table, e: DS.Entry, name: string)
    requires DS.TableOk(h, t) && DS.Lookup(h, t, name).Some? && DS.Clear(h, t, name, |name|)
    ensures DS.Clear(h, DS.Append(t, DS.Bucket(h, e.name), e), name, |name|)
  {
    DS.FindAppend(t[DS.Bucket(h, e.name)], e, name);
  }

  /** A path that leads somewhere stays clear when every step of it does. */
  lemma {:induction false} ClearStays(h: string -> nat, v: Vol, u: Vol, d: int, names: seq<string>)
    requires Resolve(v.fs, d, names).Ok? && ClearPath(h, v, d, names)
    requires forall e, n :: Step(v.fs, e, n).Ok? ==> Step(u.fs, e, n) == Step(v.fs, e, n)
    requires forall e, n :: Step(v.fs, e, n).Ok? && ClearStep(h, v, e, n) ==> ClearStep(h, u, e, n)
    ensures ClearPath(h, u, d, names)
    decreases |names|
  {
    if names != [] { ClearStays(h, v, u, Step(v.fs, d, names[0]).value, names[1..]); }
  }

  /** A link leaves every path clear that was clear and led somewhere. */
  lemma LinkedClear(h: string -> nat, v: Vol, i: int, k: int, name: string, d: int, names: seq<string>)
    requires Tabled(h, v) && InTable(h, v, k) && Link(v.fs, i, k, name).1 == 0
    requires Resolve(v.fs, d, names).Ok? && ClearPath(h, v, d, names)
    ensures ClearPath(h, LinkedTo(h, v, i, k, name), d, names)
  {
    var u := LinkedTo(h, v, i, k, name);
    LinkSteps(v.fs, i, k, name);
    assert u.fs == Link(v.fs, i, k, name).0;
    forall e, n | Step(v.fs, e, n).Ok? ensures Step(u.fs, e, n) == Step(v.fs, e, n) {}
    forall e, n | Step(v.fs, e, n).Ok? && ClearStep(h, v, e, n) ensures ClearStep(h, u, e, n) {
      assert TabledAt(h, v, k);
      if e == k {
        EntriesAt(h, v.tables[k], n);
        ClearAppended(h, v.tables[k], DS.Entry(h(name), name, i), n);
      }
    }
    ClearStays(h, v, u, d, names);
  }

  lemma {:induction false} ClearPrefix(h: string -> nat, v: Vol, d: int, names: seq<string>, name: string)
    requires ClearPath(h, v, d, names + [name])
    ensures ClearPath(h, v, d, names)
    decreases |names|
  {
    if names != [] {
      assert (names + [name])[1..] == names[1..] + [name];
      var s := Step(v.fs, d, names[0]);
      if s.Ok? { ClearPrefix(h, v, s.value, names[1..], name); }
    }
  }

  /** After a second name was added, the first one can still be found. */
  lemma RenameClear(h: string -> nat, v: Vol, i: int, d: int, from: Path, name: string)
    requires Tabled(h, v) && InTable(h, v, d) && Link(v.fs, i, d, name).1 == 0
    requires ClearPath(h, v, v.fs.root, from.dirs + [from.name])
    requires Resolve(v.fs, v.fs.root, from.dirs + [from.name]).Ok?
    ensures ClearPath(h, LinkedTo(h, v, i, d, name), v.fs.root, from.dirs)
  {
    ClearPrefix(h, v, v.fs.root, from.dirs, from.name);
    ResolveAppend(v.fs, v.fs.root, from.dirs, from.name);
    LinkedClear(h, v, i, d, name, v.fs.root, from.dirs);
  }

  lemma HardlinkClear(h: string -> nat, v: Vol, u: Vol, i: int, d: int, from: Path, name: string, err: int)
    requires Tabled(h, v) && Link(v.fs, i, d, name) == (u.fs, err)
    requires err == 0 ==> InTable(h, v, d) && u == LinkedTo(h, v, i, d, name)
    ensures var path := from.dirs + [from.name];
            ClearPath(h, v, v.fs.root, path) && Resolve(v.fs, v.fs.root, path).Ok? && err == 0 ==>
              ClearPath(h, u, v.fs.root, from.dirs)
  {
    var path := from.dirs + [from.name];
    if ClearPath(h, v, v.fs.root, path) && Resolve(v.fs, v.fs.root, path).Ok? && err == 0 {
      RenameClear(h, v, i, d, from, name);
    }
  }

  /** What a link does, wherever the searches along the two paths lead. */
  ghost predicate LinkedAt(h: string -> nat, v: Vol, u: Vol, path: seq<string>, to: Path, err: int) {
    var i, d := Follow(h, v, v.fs.root, path), Follow(h, v, v.fs.root, to.dirs);
    && (u.fs, err) == LinkFrom(v.fs, i, d, to.name)
    && (err != 0 ==> u == v)
    && (err == 0 ==>
          && i.Ok? && d.Ok? && InTable(h, v, d.value) && i.value in v.fs.inodes
          && u == LinkedTo(h, v, i.value, d.value, to.name))
  }

  ghost predicate LinkedBy(h: string -> nat, v: Vol, u: Vol, from: Path, to: Path, err: int) {
    LinkedAt(h, v, u, from.dirs + [from.name], to, err)
  }

  lemma LinkedAtOk(h: string -> nat, v: Vol, u: Vol, path: seq<string>, to: Path, i: int, d: int, err: int)
    requires Follow(h, v, v.fs.root, path) == Ok(i) && Follow(h, v, v.fs.root, to.dirs) == Ok(d)
    requires i in v.fs.inodes && (u.fs, err) == Link(v.fs, i, d, to.name) && (err != 0 ==> u == v)
    requires err == 0 ==> InTable(h, v, d) && u == LinkedTo(h, v, i, d, to.name)
    ensures LinkedAt(h, v, u, path, to, err)
  {}

  lemma LinkedByClear(h: string -> nat, v: Vol, u: Vol, from: Path, to: Path, err: int)
    requires Tabled(h, v) && LinkedBy(h, v, u, from, to, err)
    requires ClearPath(h, v, v.fs.root, from.dirs + [from.name]) ==>
               Follow(h, v, v.fs.root, from.dirs + [from.name]) == Resolve(v.fs, v.fs.root, from.dirs + [from.name])
    ensures ClearPath(h, v, v.fs.root, from.dirs + [from.name]) && err == 0 ==> ClearPath(h, u, v.fs.root, from.dirs)
  {
    var i, d := Follow(h, v, v.fs.root, from.dirs + [from.name]), Follow(h, v, v.fs.root, to.dirs);
    if err == 0 { HardlinkClear(h, v, u, i.value, d.value, from, to.name, err); }
  }

  /** A new inode disturbs nobody. */
  lemma StoreComplete(v: Vol, inode: Inode, d: int)
    requires Complete(v, -1) && v.fs.next !in v.fs.inodes && -1 !in v.fs.inodes && Live(v.fs, d)
    ensures var u := v.(fs := Store(v.fs, inode));
            && Complete(u, v.fs.next) && (!inode.dir || inode.freed ==> Complete(u, -1))
            && Live(u.fs, d) && u.fs.inodes[d] == v.fs.inodes[d]
  {}

  /** Neither does it change where a path leads. */
  lemma {:induction false} StoreResolve(h: string -> nat, v: Vol, inode: Inode, d: int, names: seq<string>)
    requires Inv(v.fs) && Live(v.fs, d) && inode.entries == map[]
    ensures var u := v.(fs := Store(v.fs, inode));
            && Resolve(u.fs, d, names) == Resolve(v.fs, d, names)
            && (ClearPath(h, v, d, names) ==> ClearPath(h, u, d, names))
    decreases |names|
  {
    NextIsNew(v.fs);
    if names != [] {
      var s := Step(v.fs, d, names[0]);
      if s.Ok? {
        StepLive(v.fs, d, names[0]);
        StoreResolve(h, v, inode, s.value, names[1..]);
      }
    }
  }

  /** Nor where the searches along it lead. */
  lemma {:induction false} StoreFollow(h: string -> nat, v: Vol, inode: Inode, d: int, names: seq<string>)
    requires Tabled(h, v) && Inv(v.fs) && Live(v.fs, d)
    ensures Follow(h, v.(fs := Store(v.fs, inode)), d, names) == Follow(h, v, d, names)
    decreases |names|
  {
    NextIsNew(v.fs);
    if names != [] {
      var s := SearchStep(h, v, d, names[0]);
      if s.Ok? {
        FoundLive(h, v, d, names[0], |names[0]|);
        StoreFollow(h, v, inode, s.value, names[1..]);
      }
    }
  }

  /** A directory inode that has just been made: nobody can reach it. */
  lemma MadeDirectory(h: string -> nat, v: Vol, names: seq<string>)
    requires Tabled(h, v) && Inv(v.fs) && Complete(v, -1) && -1 !in v.fs.inodes
    ensures var u := v.(fs := Make(v.fs, true));
            && Inv(u.fs) && Complete(u, v.fs.next) && Nameless(u.fs, v.fs.next)
            && Follow(h, u, u.fs.root, names) == Follow(h, v, v.fs.root, names)
  {
    var inode := Inode(true, 0, map[], false);
    NextIsNew(v.fs);
    StoreInv(v.fs, inode);
    StoreComplete(v, inode, v.fs.root);
    DegreeStore(v.fs, inode, v.fs.next);
    StoreFollow(h, v, inode, v.fs.root, names);
  }

  /** The volume after the inode, the name and the first link of a new directory. */
  function Named(h: string -> nat, v: Vol, d: int, name: string): Vol
    requires InTable(h, v, d)
  {
    var u := v.(fs := Make(v.fs, true));
    var w := if name in u.fs.inodes[d].entries then u
             else Vol(Bind(u.fs, d, name, v.fs.next), Entered(h, v, d, name, v.fs.next).tables);
    if v.fs.next < INODES then Recounted(w, v.fs.next, 1) else w
  }

  /** And after its table and its second link. */
  function WithTable(h: string -> nat, w: Vol, i: int, t: Table): Vol
    requires |t| == DS.BUCKETS && (i < INODES ==> i in w.fs.inodes)
  {
    if i < INODES then Recounted(Attached(h, w, i, t), i, 1) else w
  }

  /** All steps of mkdir together. */
  lemma DirectoryDone(h: string -> nat, v: Vol, d: int, name: string, t: Table)
    requires InTable(h, v, d) && Complete(v, -1) && v.fs.next !in v.fs.inodes && -1 !in v.fs.inodes && DS.TableOk(h, t)
    requires Entries(h, t) == map["." := v.fs.next]
    ensures var u := WithTable(h, Named(h, v, d, name), v.fs.next, t);
            u.fs == NewDirectory(v.fs, d, name) && Complete(u, -1)
  {
    var i := v.fs.next;
    if i < INODES {
      var w := Named(h, v, d, name);
      assert w.fs.inodes[i].entries == map[];
      assert map[]["." := i] == map["." := i];
    }
  }

  /** A new directory that comes to nothing. */
  lemma DirectoryWasted(v: Vol)
    requires Complete(v, -1) && v.fs.next !in v.fs.inodes && -1 !in v.fs.inodes
    ensures var u := v.(fs := Make(v.fs, true)); var w := if v.fs.next < INODES then WithFreed(u, v.fs.next) else u;
            w.fs == Waste(v.fs) && Complete(w, -1)
  {}

  /** A volume with no inode, and with one that has nothing. */
  const BARE := Vol(Fs(map[], 1, 1), map[])

  const ROOTED := Vol(Fs(map[1 := Inode(true, 0, map[], false)], 1, 2), map[])

  lemma RootDone(h: string -> nat, t: Table)
    requires |t| == DS.BUCKETS && Entries(h, t) == map[".." := 1, "." := 1]
    ensures ROOTED == BARE.(fs := Store(BARE.fs, Inode(true, 0, map[], false)))
    ensures var u := Recounted(Attached(h, Recounted(ROOTED, 1, 1), 1, t), 1, 1); u.fs == Mounted() && Complete(u, -1)
  {}

  /** What mkdir needs to know of its volume before the new inode. */
  ghost predicate Before(h: string -> nat, v: Vol) {
    && Tabled(h, v) && Complete(v, -1) && -1 !in v.fs.inodes && v.fs.next !in v.fs.inodes && v.fs.next !in v.tables
  }
}
