/**
 The directory hash table in memory (src/fs/ramfs.c): eight bucket heads and entries linked through htnext.
 */
module RamfsDir {
  import opened Options
  import opened RamfsDirSpec

  const EEXIST := 17
  const ENOENT := 2
  const EKERN := 1

  class DirEntry {
    const e: Entry
    var htnext: DirEntry?

    constructor (hash: nat, name: string, ino: int)
      ensures e == Entry(hash, name, ino)
    {
      e, htnext := Entry(hash, name, ino), null;
    }
  }

  /** The entries of a chain of nodes. */
  ghost function Values(ns: seq<DirEntry>): (c: Chain)
    ensures |c| == |ns|
    ensures forall i :: 0 <= i < |ns| ==> c[i] == ns[i].e
  {
    seq(|ns|, i requires 0 <= i < |ns| => ns[i].e)
  }

  lemma ValuesWithout(ns: seq<DirEntry>, k: int)
    requires 0 <= k < |ns|
    ensures Values(ns[..k] + ns[k + 1..]) == Without(Values(ns), k)
  {}

  ghost function NodeAt(ns: seq<DirEntry>, i: int): DirEntry?
    requires 0 <= i
  {
    if i < |ns| then ns[i] else null
  }

  ghost predicate Link(ns: seq<DirEntry>, i: int)
    requires 0 <= i < |ns|
    reads ns[i]
  {
    ns[i].htnext == NodeAt(ns, i + 1)
  }

  /** The nodes are chained in this order, starting from head. */
  ghost predicate Linked(head: DirEntry?, ns: seq<DirEntry>)
    reads ns
  {
    head == NodeAt(ns, 0) && forall i :: 0 <= i < |ns| ==> Link(ns, i)
  }

  ghost function NodeSet(nodes: seq<seq<DirEntry>>): set<DirEntry> {
    set b, i | 0 <= b < |nodes| && 0 <= i < |nodes[b]| :: nodes[b][i]
  }

  lemma NodeSetAppend(nodes: seq<seq<DirEntry>>, b: int, de: DirEntry)
    requires 0 <= b < |nodes|
    ensures NodeSet(nodes[b := nodes[b] + [de]]) == NodeSet(nodes) + {de}
  {
    var after := nodes[b := nodes[b] + [de]];
    assert after[b][|nodes[b]|] == de;
    forall x | x in NodeSet(nodes) ensures x in NodeSet(after) {
      var c, i :| 0 <= c < |nodes| && 0 <= i < |nodes[c]| && nodes[c][i] == x;
      assert after[c][i] == x;
    }
    forall x | x in NodeSet(after) ensures x in NodeSet(nodes) + {de} {
      var c, i :| 0 <= c < |after| && 0 <= i < |after[c]| && after[c][i] == x;
      assert x == de || nodes[c][i] == x;
    }
  }

  /** Entry k of bucket b, which has this name, is gone, and nothing else is different. */
  predicate TakenOutAt(t: seq<Chain>, u: seq<Chain>, b: int, k: int, name: string)
    requires 0 <= b < |t|
  {
    0 <= k < |t[b]| && t[b][k].name == name && u == t[b := t[b][..k] + t[b][k + 1..]]
  }

  ghost predicate TakenOut(t: seq<Chain>, u: seq<Chain>, b: int, name: string)
    requires 0 <= b < |t|
  {
    exists k :: TakenOutAt(t, u, b, k, name)
  }

  class Directory {
    const strhash: string -> nat
    const ht: array<DirEntry?>
    var size: int
    ghost var nodes: seq<seq<DirEntry>>
    ghost var table: seq<Chain>

    ghost function AllNodes(): set<DirEntry>
      reads this
    {
      NodeSet(nodes)
    }

    ghost predicate BucketOk(b: int)
      requires 0 <= b < ht.Length && 0 <= b < |nodes| && 0 <= b < |table|
      reads this, ht, nodes[b]
    {
      table[b] == Values(nodes[b]) && Linked(ht[b], nodes[b])
    }

    ghost predicate Valid()
      reads this, ht, AllNodes()
    {
      && ht.Length == BUCKETS && |nodes| == BUCKETS && TableOk(strhash, table)
      && size == Count(table)
      && forall b :: 0 <= b < BUCKETS ==> BucketOk(b)
    }

    constructor (h: string -> nat)
      ensures Valid() && strhash == h && size == 0 && AllNodes() == {} && fresh(ht) && ht.Length == 8
      ensures forall name :: Lookup(h, table, name).None?
    {
      strhash, size := h, 0;
      ht := new DirEntry?[BUCKETS](_ => null);
      nodes := seq(BUCKETS, _ => []);
      table := seq(BUCKETS, _ => []);
      new;
      EmptyCount(table);
      forall b | 0 <= b < BUCKETS ensures BucketOk(b) {}
    }

    /** Entries of different buckets are different nodes. */
    lemma Elsewhere(b: int, x: DirEntry, i: int)
      requires Valid() && 0 <= b < BUCKETS && 0 <= i < |nodes[b]| && nodes[b][i] == x
      ensures x.e.hash % BUCKETS == b && x.e.hash == strhash(x.e.name)
    {
      assert BucketOk(b) && ChainOk(strhash, table[b], b) && Placed(strhash, table[b], b, i);
    }

    lemma OwnBucket(b: int)
      requires Valid() && 0 <= b < BUCKETS
      ensures forall x :: x in nodes[b] ==> x.e.hash % BUCKETS == b && x.e.hash == strhash(x.e.name)
    {
      forall x | x in nodes[b] ensures x.e.hash % BUCKETS == b && x.e.hash == strhash(x.e.name) {
        var i :| 0 <= i < |nodes[b]| && nodes[b][i] == x;
        Elsewhere(b, x, i);
      }
    }

    /** Walks the chain for a name; without a duplicate it ends on the last node. */
    method Probe(b: int, hash: nat, name: string) returns (dup: bool, last: DirEntry?)
      requires Valid() && hash == strhash(name) && b == hash % BUCKETS
      ensures dup <==> Lookup(strhash, table, name).Some?
      ensures !dup ==> last == if nodes[b] == [] then null else nodes[b][|nodes[b]| - 1]
    {
      ghost var ns, c := nodes[b], table[b];
      assert BucketOk(b) && ChainOk(strhash, c, b);
      last := ht[b];
      if last == null { return false, null; }
      ghost var k := 0;
      while true
        invariant 0 <= k < |ns| && last == ns[k]
        invariant forall i :: 0 <= i < k ==> c[i].name != name
        decreases |ns| - k
      {
        assert Link(ns, k) && Placed(strhash, c, b, k) && c[k] == last.e;
        if last.e.hash == hash && last.e.name == name { return true, last; }
        if last.htnext == null { break; }
        last := last.htnext;
        k := k + 1;
      }
      dup := false;
    }

    /** ramfs_directory_insert. A name that is bound already is refused; otherwise it is bound, and nothing else
        changes. */
    method Insert(de: DirEntry) returns (err: int)
      requires Valid() && de.e.hash == strhash(de.e.name)
      modifies this, ht, AllNodes(), de
      ensures Valid()
      ensures old(Lookup(strhash, table, de.e.name)).Some? ==>
                err == EEXIST && unchanged(this) && AllNodes() == old(AllNodes())
      ensures old(Lookup(strhash, table, de.e.name)).None? ==> err == 0 && size == old(size) + 1
      ensures old(Lookup(strhash, table, de.e.name)).None? ==> AllNodes() == old(AllNodes()) + {de}
      ensures old(Lookup(strhash, table, de.e.name)).None? ==>
                table == Append(old(table), Bucket(strhash, de.e.name), de.e)
      ensures old(Lookup(strhash, table, de.e.name)).None? ==>
                var b := strhash(de.e.name) % 8;
                |old(table)| == 8 && table == old(table)[b := old(table)[b] + [de.e]]
      ensures old(Lookup(strhash, table, de.e.name)).None? ==> forall name ::
                Lookup(strhash, table, name)
                == if name == de.e.name then Some(de.e.ino) else old(Lookup(strhash, table, name))
    {
      ghost var t := table;
      var b := de.e.hash % BUCKETS;
      var dup, last := Probe(b, de.e.hash, de.e.name);
      if dup { return EEXIST; }
      NodeSetAppend(nodes, b, de);
      Attach(b, last, de);
      forall name ensures Lookup(strhash, table, name)
                       == if name == de.e.name then Some(de.e.ino) else Lookup(strhash, t, name) {
        AppendLookup(strhash, t, de.e, name);
      }
      err := 0;
    }

    /** A chain passes through no node twice. */
    lemma NoTwice(b: int, i: int, j: int)
      requires Valid() && 0 <= b < BUCKETS && 0 <= i < j < |nodes[b]|
      ensures nodes[b][i] != nodes[b][j]
    {
      assert BucketOk(b) && ChainOk(strhash, table[b], b) && OtherName(table[b], i, j);
    }

    lemma NotThere(de: DirEntry, b: int)
      requires Valid() && de.e.hash == strhash(de.e.name) && Lookup(strhash, table, de.e.name).None? && 0 <= b < BUCKETS
      ensures de !in nodes[b]
    {
      OwnBucket(b);
      assert BucketOk(b);
      forall x | x in nodes[b] ensures x != de {
        var i :| 0 <= i < |nodes[b]| && nodes[b][i] == x;
        assert table[b][i] == x.e;
      }
    }

    /** A node of one chain is on no other, and on its own in one place only. */
    lemma OnePlace(b: int, k: int)
      requires Valid() && 0 <= b < BUCKETS && 0 <= k < |nodes[b]|
      ensures forall i :: 0 <= i < BUCKETS && i != b ==> nodes[b][k] !in nodes[i]
      ensures forall i :: 0 <= i < |nodes[b]| && i != k ==> nodes[b][i] != nodes[b][k]
    {
      forall i | 0 <= i < BUCKETS && i != b ensures nodes[b][k] !in nodes[i] {
        OwnBucket(i);
        Elsewhere(b, nodes[b][k], k);
      }
      forall i | 0 <= i < |nodes[b]| && i != k ensures nodes[b][i] != nodes[b][k] {
        if i < k { NoTwice(b, i, k); } else { NoTwice(b, k, i); }
      }
    }

    /** A bucket whose head and nodes have not changed. */
    twostate lemma Untouched(i: int)
      requires ht.Length == BUCKETS && 0 <= i < BUCKETS == |nodes| == |table| && |old(nodes)| == |old(table)| == BUCKETS
      requires old(BucketOk(i)) && nodes[i] == old(nodes[i]) && table[i] == old(table[i]) && ht[i] == old(ht[i])
      requires forall x :: x in nodes[i] ==> x.htnext == old(x.htnext)
      ensures BucketOk(i)
    {
      forall k | 0 <= k < |nodes[i]| ensures Link(nodes[i], k) {
        assert old(Link(nodes[i], k)) && nodes[i][k] in nodes[i];
      }
    }

    /** Hangs a node behind the last one of its chain. */
    method Attach(b: int, last: DirEntry?, de: DirEntry)
      requires Valid() && de.e.hash == strhash(de.e.name) && Lookup(strhash, table, de.e.name).None?
      requires b == de.e.hash % BUCKETS && last == if nodes[b] == [] then null else nodes[b][|nodes[b]| - 1]
      modifies this, ht, AllNodes(), de
      ensures Valid() && table == Append(old(table), b, de.e) && nodes == old(nodes)[b := old(nodes)[b] + [de]]
      ensures size == old(size) + 1
    {
      ghost var ns := nodes[b];
      forall i | 0 <= i < BUCKETS ensures de !in nodes[i] { NotThere(de, i); }
      if ns != [] { OnePlace(b, |ns| - 1); }
      assert BucketOk(b);
      AppendKeeps(strhash, table, de.e);
      CountUpdate(table, b, table[b] + [de.e]);
      if last == null { ht[b] := de; } else { last.htnext := de; }
      de.htnext := null;
      size := size + 1;
      nodes := nodes[b := ns + [de]];
      table := Append(table, b, de.e);
      forall i | 0 <= i < BUCKETS && i != b ensures BucketOk(i) {
        assert old(BucketOk(i));
        Untouched(i);
      }
      forall k | 0 <= k < |nodes[b]| ensures Link(nodes[b], k) { if k < |ns| { assert old(Link(ns, k)); } }
      assert BucketOk(b);
    }

    /** Walks the chain to the node with this name; prev is the node before it. */
    method Seek(b: int, hash: nat, name: string) returns (prev: DirEntry?, de: DirEntry?, ghost k: int)
      requires Valid() && b == hash % BUCKETS
      ensures de != null <==> hash == strhash(name) && Lookup(strhash, table, name).Some?
      ensures de != null ==>
                && 0 <= k < |nodes[b]| && de == nodes[b][k] && de.e.name == name
                && prev == if k == 0 then null else nodes[b][k - 1]
    {
      ghost var ns, c := nodes[b], table[b];
      assert BucketOk(b) && ChainOk(strhash, c, b);
      prev, de, k := null, ht[b], 0;
      while de != null
        invariant 0 <= k <= |ns| && de == NodeAt(ns, k) && prev == if k == 0 then null else ns[k - 1]
        invariant forall i :: 0 <= i < k ==> c[i].hash != hash || c[i].name != name
        decreases |ns| - k
      {
        assert Link(ns, k) && Placed(strhash, c, b, k) && c[k] == de.e;
        if de.e.hash == hash && de.e.name == name { return; }
        prev, de := de, de.htnext;
        k := k + 1;
      }
      ghost var f := Find(c, name);
      if f >= 0 { assert Placed(strhash, c, b, f); }
    }

    /** ramfs_directory_delete_entry. The hash is taken over at most namelen characters, the name is compared in
        full. */
    method Delete(name: string, namelen: nat) returns (err: int)
      requires Valid()
      modifies this, ht, AllNodes()
      ensures Valid() && AllNodes() <= old(AllNodes())
      ensures err == 0 <==> old(Lookup(strhash, table, name)).Some? && strhash(name) == strhash(Trunc(name, namelen))
      ensures err != 0 ==> err == 2 && unchanged(this)
      ensures err == 0 ==> size == old(size) - 1 && table == Removed(strhash, old(table), name)
      ensures err == 0 ==> |old(table)| == 8 && TakenOut(old(table), table, strhash(name) % 8, name)
      ensures err == 0 ==> forall other ::
                Lookup(strhash, table, other) == if other == name then None else old(Lookup(strhash, table, other))
    {
      ghost var t := table;
      var hash := strhash(Trunc(name, namelen));
      var b := hash % BUCKETS;
      ghost var k;
      var prev, de;
      prev, de, k := Seek(b, hash, name);
      if de == null { return ENOENT; }
      assert BucketOk(b) && ChainOk(strhash, t[b], b);
      FindUnique(t[b], name, k);
      NodeSetWithout(nodes, b, k);
      Detach(b, prev, de, k);
      assert TakenOutAt(t, table, b, k, name);
      forall other ensures Lookup(strhash, table, other) == if other == name then None else Lookup(strhash, t, other) {
        WithoutLookup(strhash, t, k, name, other);
      }
      err := 0;
    }

    /** Takes a node out of its chain. */
    method Detach(b: int, prev: DirEntry?, de: DirEntry, ghost k: int)
      requires Valid() && 0 <= b < BUCKETS && 0 <= k < |nodes[b]| && de == nodes[b][k]
      requires prev == if k == 0 then null else nodes[b][k - 1]
      modifies this, ht, AllNodes()
      ensures Valid() && |old(table)[b]| == |old(nodes)[b]| && table == old(table)[b := Without(old(table)[b], k)]
      ensures nodes == old(nodes)[b := old(nodes)[b][..k] + old(nodes)[b][k + 1..]] && size == old(size) - 1
    {
      ghost var ns, c := nodes[b], table[b];
      assert BucketOk(b) && Link(ns, k);
      if k > 0 { OnePlace(b, k - 1); }
      WithoutKeeps(strhash, table, b, k);
      CountUpdate(table, b, Without(c, k));
      ValuesWithout(ns, k);
      Bypass(b, prev, de, ns, k);
      size := size - 1;
      nodes := nodes[b := ns[..k] + ns[k + 1..]];
      table := table[b := Without(c, k)];
      forall i | 0 <= i < BUCKETS ensures BucketOk(i) {
        assert old(BucketOk(i));
        if i != b { Untouched(i); }
      }
    }

    /** The node before it, or the head, points past it. */
    method Bypass(b: int, prev: DirEntry?, de: DirEntry, ghost ns: seq<DirEntry>, ghost k: int)
      requires 0 <= b < ht.Length && 0 <= k < |ns| && de == ns[k] && Linked(ht[b], ns)
      requires prev == if k == 0 then null else ns[k - 1]
      requires forall i :: 0 <= i < |ns| && i != k - 1 ==> ns[i] != prev
      modifies ht, if prev == null then {} else {prev}
      ensures Linked(ht[b], ns[..k] + ns[k + 1..])
      ensures forall i :: 0 <= i < ht.Length && i != b ==> ht[i] == old(ht[i])
    {
      assert Link(ns, k);
      if prev == null { ht[b] := de.htnext; } else { prev.htnext := de.htnext; }
      ghost var after := ns[..k] + ns[k + 1..];
      forall j | 0 <= j < |after| ensures Link(after, j) {
        if j < k { assert old(Link(ns, j)); } else { assert old(Link(ns, j + 1)); }
      }
    }

    /** ramfs_directory_search for the first n characters of s. */
    method SearchFor(s: string, n: nat) returns (err: int, ino: int)
      requires Valid()
      ensures Search(strhash, table, s, n).Some? ==> err == 0 && Search(strhash, table, s, n) == Some(ino)
      ensures Search(strhash, table, s, n).None? ==> err == ENOENT && ino == 0
    {
      var p := Trunc(s, n);
      var hash := strhash(p);
      var b := hash % BUCKETS;
      ghost var ns, c := nodes[b], table[b];
      assert BucketOk(b);
      var de := ht[b];
      ghost var k := 0;
      while de != null
        invariant 0 <= k <= |ns| && de == NodeAt(ns, k)
        invariant forall i :: 0 <= i < k ==> !Hit(c[i], hash, p, n)
        decreases |ns| - k
      {
        assert Link(ns, k) && c[k] == de.e;
        if de.e.hash == hash && Trunc(de.e.name, n) == p { return 0, de.e.ino; }
        de := de.htnext;
        k := k + 1;
      }
      return ENOENT, 0;
    }

    /**
     ramfs_get_direntry. The entry that the iterator stands for and the iterator for the one behind it. The directory
     must not be empty, and neither may the bucket of the iterator's hash.
     */
    method GetDirentry(iter: nat) returns (err: int, entry: Entry, next: nat)
      requires Valid() && (iter == 0 ==> size > 0) && (iter != 0 ==> table[iter % BUCKETS] != [])
      ensures err == EKERN <==> Position(Flatten(table), iter) < 0
      ensures err == 0 || err == EKERN
      ensures err == 0 ==> var k := Position(Flatten(table), iter);
                           entry == Flatten(table)[k] && next == Behind(Flatten(table), k)
    {
      ghost var i;
      var b, de;
      b, de, i := LocateIter(iter);
      if de == null { return EKERN, Entry(0, "", 0), 0; }
      assert BucketOk(b);
      FlattenAt(table, b, i);
      next := NextOf(b, de, i);
      return 0, de.e, next;
    }

    /** The node an iterator stands for, and its bucket. */
    method LocateIter(iter: nat) returns (b: int, de: DirEntry?, ghost i: int)
      requires Valid() && (iter == 0 ==> size > 0) && (iter != 0 ==> table[iter % BUCKETS] != [])
      ensures de == null <==> Position(Flatten(table), iter) < 0
      ensures de != null ==>
                && 0 <= b < BUCKETS && 0 <= i < |nodes[b]| && de == nodes[b][i]
                && Position(Flatten(table), iter) == Offset(table, b) + i
    {
      i := 0;
      if iter == 0 {
        SomeBucket(table);
        b := 0;
        while ht[b] == null
          invariant 0 <= b < BUCKETS && forall k :: 0 <= k < b ==> table[k] == []
          invariant exists k :: b <= k < BUCKETS && table[k] != []
          decreases BUCKETS - b
        {
          assert BucketOk(b);
          b := b + 1;
        }
        assert BucketOk(b);
        OffsetSkip(table, 0, b);
        return b, ht[b], 0;
      }
      b := iter % BUCKETS;
      FlattenHash(strhash, table, iter);
      ghost var ns, c := nodes[b], table[b];
      assert BucketOk(b);
      de := ht[b];
      while de.e.hash != iter
        invariant 0 <= i < |ns| && de == ns[i] && forall k :: 0 <= k < i ==> c[k].hash != iter
        decreases |ns| - i
      {
        assert Link(ns, i) && c[i] == de.e;
        if de.htnext == null { return b, null, i; }
        de := de.htnext;
        i := i + 1;
      }
    }

    /** Hash of the node behind this one: in the chain, or first in the next bucket that has any. */
    method NextOf(b: int, de: DirEntry, ghost i: int) returns (next: nat)
      requires Valid() && 0 <= b < BUCKETS && 0 <= i < |nodes[b]| && de == nodes[b][i]
      ensures Offset(table, b) + i < Count(table) && next == Behind(Flatten(table), Offset(table, b) + i)
    {
      assert BucketOk(b) && Link(nodes[b], i);
      FlattenAt(table, b, i);
      if de.htnext != null {
        FlattenAt(table, b, i + 1);
        return de.htnext.e.hash;
      }
      OffsetNext(table, b);
      var c := b + 1;
      while c < BUCKETS
        invariant b < c <= BUCKETS && forall k :: b < k < c ==> table[k] == []
      {
        assert BucketOk(c);
        if ht[c] != null {
          OffsetSkip(table, b + 1, c);
          FlattenAt(table, c, 0);
          return ht[c].e.hash;
        }
        c := c + 1;
      }
      OffsetSkip(table, b + 1, BUCKETS);
      OffsetNext(table, BUCKETS - 1);
      next := 0;
    }

    /** Reads the whole directory through the iterator: every entry once, in order, when hashes are distinct and
        nonzero. */
    method List() returns (all: seq<Entry>)
      requires Valid() && size > 0 && Listable(Flatten(table))
      ensures all == Flatten(table)
      ensures all == table[0] + (table[1] + (table[2] + (table[3] + (table[4] + (table[5] + (table[6] + table[7]))))))
    {
      FlattenEight(table);
      ghost var order := Flatten(table);
      all := [];
      var iter := 0;
      ghost var n := 0;
      while true
        invariant 0 <= n < |order| && all == order[..n] && IterAt(order, n) == Some(iter)
        decreases |order| - n
      {
        ListStep(order, n, iter);
        IterBucket(order, iter);
        var err, entry, next := GetDirentry(iter);
        all := all + [entry];
        if next == 0 { return; }
        iter, n := next, n + 1;
      }
    }

    lemma IterBucket(order: Chain, iter: nat)
      requires Valid() && order == Flatten(table) && Position(order, iter) >= 0 && order != []
      ensures iter != 0 ==> table[iter % BUCKETS] != []
    {
      FlattenHash(strhash, table, iter);
    }
  }

  lemma NodeSetWithout(nodes: seq<seq<DirEntry>>, b: int, k: int)
    requires 0 <= b < |nodes| && 0 <= k < |nodes[b]|
    ensures NodeSet(nodes[b := nodes[b][..k] + nodes[b][k + 1..]]) <= NodeSet(nodes)
  {
    var after := nodes[b := nodes[b][..k] + nodes[b][k + 1..]];
    forall x | x in NodeSet(after) ensures x in NodeSet(nodes) {
      var c, i :| 0 <= c < |after| && 0 <= i < |after[c]| && after[c][i] == x;
      if c == b { assert x == nodes[b][if i < k then i else i + 1]; } else { assert nodes[c][i] == x; }
    }
  }

  lemma SomeBucket(t: seq<Chain>)
    requires Count(t) > 0
    ensures exists b :: 0 <= b < |t| && t[b] != []
  {
    if forall b :: 0 <= b < |t| ==> t[b] == [] { EmptyCount(t); }
  }

  lemma {:induction false} EmptyCount(t: seq<Chain>)
    requires forall b :: 0 <= b < |t| ==> t[b] == []
    ensures Count(t) == 0
  {
    if t != [] { EmptyCount(t[1..]); }
  }
}
