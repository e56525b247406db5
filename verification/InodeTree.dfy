/**
 The radix tree of inodes in memory (src/fs/ramfs.c, struct btree_node).
 */
module InodeTree {
  import opened Division
  import opened InodeTreeSpec

  /** bt_children[i]: null, an inode, or a node. */
  datatype Child = Null | Inode(ino: int) | Branch(node: BNode)

  class BNode {
    const fanout: nat
    var level: int
    var used: int
    var children: seq<Child>
    ghost var Repr: set<BNode>
    ghost var tree: Tree

    ghost predicate KidOk(i: int)
      requires 0 <= i < |children| && |children| == |tree.slots|
      reads this, Repr
      decreases Repr, 0
    {
      match children[i]
      case Null => tree.slots[i] == Empty
      case Inode(n) => tree.slots[i] == Leaf(n)
      case Branch(b) =>
        && b in Repr && b in b.Repr && b.Repr < Repr && this !in b.Repr && b.fanout == fanout
        && b.Valid() && tree.slots[i] == Sub(b.tree)
    }

    ghost predicate Apart(i: int, j: int)
      requires 0 <= i < |children| && 0 <= j < |children|
      reads this, Repr
    {
      children[i].Branch? && children[j].Branch? && children[i].node in Repr && children[j].node in Repr ==>
        children[i].node.Repr !! children[j].node.Repr
    }

    ghost predicate Valid()
      reads this, Repr
      decreases Repr, 1
    {
      && this in Repr && tree.level == level && tree.used == used
      && |children| == fanout && |tree.slots| == fanout
      && (forall i :: 0 <= i < fanout ==> KidOk(i))
      && (forall i, j :: 0 <= i < j < fanout ==> Apart(i, j))
    }

    /** btree_new: no children, level 0. */
    constructor (n: nat)
      ensures Valid() && fresh(Repr) && Repr == {this} && fanout == n && tree == Node(0, 0, Empties(n))
      ensures level == 0 && used == 0 && children == seq(n, _ => Null)
    {
      fanout, level, used := n, 0, 0;
      children := seq(n, _ => Null);
      Repr := {this};
      tree := Node(0, 0, Empties(n));
      new;
      forall i, j | 0 <= i < j < n ensures Apart(i, j) {}
    }

    /** The slot a child stands for. */
    ghost function SlotOf(c: Child): Slot
      reads if c.Branch? then {c.node} else {}
    {
      match c case Null => Empty case Inode(n) => Leaf(n) case Branch(b) => Sub(b.tree)
    }

    /** btree_get_index. */
    method GetIndex(index: nat) returns (c: Child)
      requires Valid() && fanout > 0 && level >= 0 && Shaped(tree, fanout) && Proper(tree, level)
      ensures SlotOf(c) == Lookup(tree, fanout, index)
    {
      var lvl := level;
      var btsize := fanout;
      var i := 0;
      while i < lvl
        invariant 0 <= i <= lvl && btsize == Pow(fanout, i + 1)
      {
        btsize := btsize * fanout;
        i := i + 1;
      }
      if btsize <= index { return Null; }
      var node, x := this, index;
      while lvl > 0
        invariant 0 <= lvl && btsize == Pow(fanout, lvl + 1) && 0 <= x < btsize
        invariant node.Valid() && node.fanout == fanout && Shaped(node.tree, fanout) && Proper(node.tree, lvl)
        invariant Get(node.tree, fanout, lvl, x) == Lookup(tree, fanout, index)
        decreases lvl
      {
        PowPositive(fanout, lvl);
        PowDown(fanout, lvl);
        btsize := btsize / fanout;
        DivRange(x, btsize, fanout);
        var k := x / btsize;
        x := x % btsize;
        assert node.KidOk(k) && SlotShaped(node.tree, fanout, k) && ProperAt(node.tree, lvl, k);
        if node.children[k].Null? { return Null; }
        node := node.children[k].node;
        lvl := lvl - 1;
      }
      assert Pow(fanout, 1) == fanout * Pow(fanout, 0);
      assert node.KidOk(x);
      c := node.children[x];
    }

    /** btree_set_leaf. */
    method SetLeaf(ino: int) returns (r: int)
      requires Valid() && fanout > 0 && level >= 0 && Shaped(tree, fanout)
      requires Uniform(tree)
      modifies Repr
      ensures Valid() && Repr == old(Repr)
      ensures tree == InodeTreeSpec.SetLeaf(old(tree), fanout, ino).0
      ensures r == InodeTreeSpec.SetLeaf(old(tree), fanout, ino).1
      decreases Repr
    {
      if level == 0 {
        r := SetHere(ino);
      } else {
        r := SetBelow(ino);
      }
    }

    /** A node of level 0: the first free slot. */
    method SetHere(ino: int) returns (r: int)
      requires Valid() && level == 0 && Uniform(tree)
      modifies this
      ensures Valid() && Repr == old(Repr)
      ensures tree == InodeTreeSpec.SetLeaf(old(tree), fanout, ino).0
      ensures r == InodeTreeSpec.SetLeaf(old(tree), fanout, ino).1
      decreases Repr, 0
    {
      if used >= fanout { return 0; }
      var i := 0;
      while i < fanout
        invariant 0 <= i <= fanout && i <= FirstEmpty(tree.slots)
      {
        assert KidOk(i) && LevelOk(tree, i);
        if children[i].Null? {
          used := used + 1;
          children := children[i := Inode(ino)];
          tree := Node(level, used, tree.slots[i := Leaf(ino)]);
          forall k | 0 <= k < fanout ensures KidOk(k) { assert old(KidOk(k)) && old(LevelOk(tree, k)); }
          forall j, k | 0 <= j < k < fanout ensures Apart(j, k) { assert old(LevelOk(tree, j)) && old(KidOk(j)); }
          return i;
        }
        i := i + 1;
      }
      r := 0;
    }

    /** A node above: its children in turn. */
    method SetBelow(ino: int) returns (r: int)
      requires Valid() && fanout > 0 && level > 0 && Shaped(tree, fanout) && Uniform(tree)
      modifies Repr
      ensures Valid() && Repr == old(Repr)
      ensures tree == InodeTreeSpec.SetLeaf(old(tree), fanout, ino).0
      ensures r == InodeTreeSpec.SetLeaf(old(tree), fanout, ino).1
      decreases Repr, 3
    {
      ghost var t := tree;
      HalfwayStart(t, fanout, ino);
      var i, res := TryAll(ino, t);
      if res > 0 {
        r := IndexOf(i, res);
        FoundAt(t, fanout, ino, tree.slots, i, res);
      } else {
        HalfwayEnd(t, fanout, ino, tree.slots);
        r := 0;
      }
    }

    /** The child that had room and the index within it, or no positive index. */
    method TryAll(ino: int, ghost t: Tree) returns (i: int, res: int)
      requires Valid() && fanout > 0 && Shaped(t, fanout) && Uniform(t) && t.level > 0
      requires tree == t.(slots := tree.slots) && Halfway(t, fanout, ino, tree.slots, 0)
      modifies Repr
      ensures Valid() && Repr == old(Repr) && level == old(level) && tree == t.(slots := tree.slots)
      ensures res > 0 ==> 0 <= i < fanout && SetIn(t, fanout, ino, 0) == Stored(tree.slots, i, res)
      ensures res <= 0 ==> Halfway(t, fanout, ino, tree.slots, fanout)
      decreases Repr, 2
    {
      i, res := 0, 0;
      while i < fanout
        invariant 0 <= i <= fanout && Valid() && Repr == old(Repr) && level == old(level) && res <= 0
        invariant tree == t.(slots := tree.slots) && Halfway(t, fanout, ino, tree.slots, i)
      {
        var next := i + 1;
        res := TryAt(i, next, ino, t);
        if res > 0 { return; }
        i := next;
      }
    }

    /** Child i, if there is one. */
    method TryAt(i: int, ghost next: nat, ino: int, ghost t: Tree) returns (res: int)
      requires Valid() && fanout > 0 && 0 <= i < fanout && next == i + 1
      requires Shaped(t, fanout) && Uniform(t) && t.level > 0
      requires tree == t.(slots := tree.slots) && Halfway(t, fanout, ino, tree.slots, i)
      modifies Repr
      ensures Valid() && Repr == old(Repr) && level == old(level) && tree == t.(slots := tree.slots)
      ensures res > 0 ==> SetIn(t, fanout, ino, 0) == Stored(tree.slots, i, res)
      ensures res <= 0 ==> Halfway(t, fanout, ino, tree.slots, next)
      decreases Repr, 1
    {
      assert KidOk(i) && LevelOk(t, i) && SlotShaped(t, fanout, i);
      HalfwayStep(t, fanout, ino, tree.slots, i);
      if children[i].Branch? { res := TryChild(i, ino); } else { res := 0; }
    }

    /** The index of slot res of child i. */
    method IndexOf(i: int, res: int) returns (r: int)
      requires level >= 0
      ensures r == res + i * Pow(fanout, level)
    {
      var offset, j := 1, level;
      while j > 0
        invariant 0 <= j <= level && offset == Pow(fanout, level - j)
      {
        offset := offset * fanout;
        j := j - 1;
      }
      r := res + i * offset;
    }

    /** Tries to store in child i. */
    method TryChild(i: int, ino: int) returns (res: int)
      requires Valid() && fanout > 0 && 0 <= i < fanout && children[i].Branch?
      requires tree.slots[i].Sub? && Shaped(tree.slots[i].t, fanout) && Uniform(tree.slots[i].t)
      modifies Repr
      ensures Valid() && Repr == old(Repr) && level == old(level)
      ensures var s := InodeTreeSpec.SetLeaf(old(tree).slots[i].t, fanout, ino);
              res == s.1 && tree == old(tree).(slots := old(tree).slots[i := Sub(s.0)])
      decreases Repr, 0
    {
      assert KidOk(i);
      var b := children[i].node;
      res := b.SetLeaf(ino);
      tree := tree.(slots := tree.slots[i := Sub(b.tree)]);
      forall k | 0 <= k < fanout ensures KidOk(k) {
        assert old(KidOk(k));
        if k < i { assert old(Apart(k, i)); } else if i < k { assert old(Apart(i, k)); }
      }
      forall j, k | 0 <= j < k < fanout ensures Apart(j, k) {
        assert old(Apart(j, k)) && old(KidOk(j)) && old(KidOk(k));
        if j < i { assert old(Apart(j, i)); } else if i < j { assert old(Apart(i, j)); }
        if k < i { assert old(Apart(k, i)); } else if i < k { assert old(Apart(i, k)); }
      }
    }
  }

  // ---------- growing ----------

  predicate IsLink(ns: seq<BNode>, q: int, f: nat)
    requires 0 <= q < |ns|
    reads ns[q]
  {
    && ns[q].fanout == f && ns[q].level == 0
    && (if q + 1 < |ns|
        then ns[q].used == 1 && |ns[q].children| == f && f > 0 && ns[q].children == Nulls(f)[0 := Branch(ns[q + 1])]
        else ns[q].used == 0 && ns[q].children == Nulls(f))
  }

  function Nulls(n: nat): seq<Child> { seq(n, _ => Null) }

  predicate OtherNode(ns: seq<BNode>, p: int, q: int)
    requires 0 <= p < |ns| && 0 <= q < |ns|
  {
    ns[p] != ns[q]
  }

  /** A path of new nodes, each the first child of the one before. */
  ghost predicate Links(ns: seq<BNode>, f: nat)
    reads ns
  {
    && (forall q :: 0 <= q < |ns| ==> IsLink(ns, q, f))
    && (forall p, q :: 0 <= p < q < |ns| ==> OtherNode(ns, p, q))
  }

  /** Hangs a new node below the last one of the path. */
  method Extend(ns: seq<BNode>, f: nat) returns (node: BNode)
    requires |ns| > 0 && Links(ns, f) && f > 0
    modifies ns[|ns| - 1]
    ensures Links(ns + [node], f) && fresh(node)
  {
    node := new BNode(f);
    var last, after := |ns| - 1, ns + [node];
    assert IsLink(ns, last, f);
    ns[last].children := ns[last].children[0 := Branch(node)];
    ns[last].used := ns[last].used + 1;
    forall q | 0 <= q < |after| ensures IsLink(after, q, f) {
      if q < last {
        assert old(IsLink(ns, q, f)) && OtherNode(ns, q, last);
      }
    }
    forall p, q | 0 <= p < q < |after| ensures OtherNode(after, p, q) {
      if q < |ns| { assert OtherNode(ns, p, q); }
    }
  }

  ghost function From(ns: seq<BNode>, q: int): set<BNode>
    requires 0 <= q <= |ns|
  {
    set k | q <= k < |ns| :: ns[k]
  }

  lemma FromExtended(ns: seq<BNode>, node: BNode)
    ensures From(ns + [node], 0) == From(ns, 0) + {node}
  {
    var after := ns + [node];
    assert after[|ns|] == node;
    forall x | x in From(ns, 0) ensures x in From(after, 0) {
      var k :| 0 <= k < |ns| && ns[k] == x;
      assert after[k] == x;
    }
  }

  /** Records what the finished path stands for, from its end upwards. */
  ghost method Settle(ns: seq<BNode>, f: nat, q: int)
    requires 0 <= q < |ns| && f > 0 && Links(ns, f)
    modifies From(ns, q)`Repr, From(ns, q)`tree
    ensures Links(ns, f) && ns[q].Valid() && ns[q].Repr == From(ns, q) && ns[q].tree == Path(f, |ns| - 1 - q)
    decreases |ns| - q
  {
    var node := ns[q];
    assert IsLink(ns, q, f);
    if q + 1 == |ns| {
      node.Repr, node.tree := {node}, Path(f, 0);
      forall i | 0 <= i < f ensures node.KidOk(i) {}
      forall i, j | 0 <= i < j < f ensures node.Apart(i, j) {}
    } else {
      Settle(ns, f, q + 1);
      var below := ns[q + 1];
      assert node !in From(ns, q + 1) by {
        forall k | q < k < |ns| ensures ns[k] != node { assert OtherNode(ns, q, k); }
      }
      assert From(ns, q) == {node} + From(ns, q + 1);
      node.Repr, node.tree := {node} + below.Repr, Path(f, |ns| - 1 - q);
      assert IsLink(ns, q, f);
      forall i | 0 <= i < f ensures node.KidOk(i) {}
      forall i, j | 0 <= i < j < f ensures node.Apart(i, j) {}
    }
    forall k | 0 <= k < |ns| ensures IsLink(ns, k, f) { assert old(IsLink(ns, k, f)); }
  }

  /** btree_new_leaf; `top` is the root from now on. Node allocation is taken to succeed. */
  method NewLeaf(root: BNode, ino: int) returns (top: BNode, r: int)
    requires root.Valid() && root.fanout > 1 && root.level >= 0 && Shaped(root.tree, root.fanout) && Uniform(root.tree)
    modifies root.Repr
    ensures top.Valid() && top.fanout == root.fanout
    ensures top.tree == InodeTreeSpec.NewLeaf(old(root.tree), root.fanout, ino).0
    ensures r == InodeTreeSpec.NewLeaf(old(root.tree), root.fanout, ino).1
    ensures fresh(top.Repr - old(root.Repr))
  {
    SetLeafKeeps(root.tree, root.fanout, ino);
    r := root.SetLeaf(ino);
    if r > 0 { return root, r; }
    var f, lvl := root.fanout, root.level + 1;
    var ns;
    ns, r := NewPath(f, lvl);
    Settle(ns, f, 0);
    top := NewRoot(root, ns[0], f, lvl);
  }

  /** lvl new nodes, each hung below the one before, and the first index that leads through them. */
  method NewPath(f: nat, lvl: nat) returns (ns: seq<BNode>, r: int)
    requires f > 0 && lvl > 0
    ensures |ns| == lvl && Links(ns, f) && fresh(From(ns, 0)) && r == Pow(f, lvl)
  {
    var node := new BNode(f);
    ns, r := [node], f;
    assert Pow(f, 1) == f * Pow(f, 0);
    while |ns| < lvl
      invariant 1 <= |ns| <= lvl && Links(ns, f) && fresh(From(ns, 0)) && r == Pow(f, |ns|)
      decreases lvl - |ns|
    {
      assert ns[|ns| - 1] in From(ns, 0);
      node := Extend(ns, f);
      FromExtended(ns, node);
      ns, r := ns + [node], r * f;
    }
  }

  /** A root over the old tree and the new path. */
  method NewRoot(root: BNode, path: BNode, f: nat, lvl: nat) returns (top: BNode)
    requires f > 1 && root.Valid() && path.Valid() && root.fanout == f && path.fanout == f && root.Repr !! path.Repr
    requires lvl == root.level + 1 && root.level >= 0 && path.tree == Path(f, root.level)
    ensures top.Valid() && top.fanout == f && fresh(top) && top.tree == Grow(root.tree, f)
    ensures top.Repr == {top} + root.Repr + path.Repr
  {
    top := new BNode(f);
    top.level := lvl;
    top.children := top.children[0 := Branch(root)][1 := Branch(path)];
    top.used := 2;
    top.Repr := {top} + root.Repr + path.Repr;
    top.tree := Grow(root.tree, f);
    forall i | 0 <= i < f ensures top.KidOk(i) {}
    forall i, j | 0 <= i < j < f ensures top.Apart(i, j) {}
  }

  /** The children below i have been tried in vain; the rest decide. */
  ghost predicate Halfway(t: Tree, f: nat, ino: int, slots: seq<Slot>, i: nat)
    requires i <= |t.slots|
  {
    && |slots| == |t.slots| && slots[i..] == t.slots[i..]
    && var s, rest := SetIn(t, f, ino, 0), SetIn(t, f, ino, i);
       s.slots == slots[..i] + rest.slots && s.index == rest.index && (s.index > 0 ==> s.child == rest.child)
  }

  lemma HalfwayStart(t: Tree, f: nat, ino: int)
    ensures Halfway(t, f, ino, t.slots, 0)
  {
    assert t.slots[..0] + SetIn(t, f, ino, 0).slots == SetIn(t, f, ino, 0).slots;
  }

  lemma HalfwayEnd(t: Tree, f: nat, ino: int, slots: seq<Slot>)
    requires t.level > 0 && Halfway(t, f, ino, slots, |t.slots|)
    ensures SetLeaf(t, f, ino) == (t.(slots := slots), 0)
  {
    assert slots[..|slots|] + [] == slots;
  }

  lemma FoundAt(t: Tree, f: nat, ino: int, slots: seq<Slot>, i: int, res: int)
    requires t.level > 0 && res > 0 && SetIn(t, f, ino, 0) == Stored(slots, i, res)
    ensures SetLeaf(t, f, ino) == (t.(slots := slots), res + i * Pow(f, t.level))
  {}

  lemma Suffix(a: seq<Slot>, b: seq<Slot>, i: nat)
    requires i < |a| == |b| && a[i..] == b[i..]
    ensures a[i] == b[i] && a[i + 1..] == b[i + 1..]
  {
    assert a[i] == a[i..][0] == b[i..][0];
    assert a[i + 1..] == a[i..][1..] == b[i..][1..];
  }

  lemma Joined(a: seq<Slot>, i: nat, x: Slot, rest: seq<Slot>)
    requires i < |a| && rest != [] && rest[0] == x
    ensures a[..i] + rest == a[i := x][..i + 1] + rest[1..] && a[i := x][i + 1..] == a[i + 1..]
    ensures a[..i] + ([x] + a[i + 1..]) == a[i := x]
  {
    assert rest == [x] + rest[1..];
  }

  lemma HalfwayStep(t: Tree, f: nat, ino: int, slots: seq<Slot>, i: nat)
    requires i < |t.slots| && Halfway(t, f, ino, slots, i)
    ensures slots[i] == t.slots[i]
    ensures !slots[i].Sub? ==> Halfway(t, f, ino, slots, i + 1)
    ensures slots[i].Sub? ==>
              var c := SetLeaf(slots[i].t, f, ino);
              var now := slots[i := Sub(c.0)];
              if c.1 > 0 then SetIn(t, f, ino, 0) == Stored(now, i, c.1) else Halfway(t, f, ino, now, i + 1)
  {
    Suffix(slots, t.slots, i);
    if slots[i].Sub? { HalfwayTried(t, f, ino, slots, i); } else { HalfwayPassed(t, f, ino, slots, i); }
  }

  lemma HalfwayPassed(t: Tree, f: nat, ino: int, slots: seq<Slot>, i: nat)
    requires i < |t.slots| && Halfway(t, f, ino, slots, i)
    requires slots[i] == t.slots[i] && slots[i + 1..] == t.slots[i + 1..]
    requires !slots[i].Sub?
    ensures Halfway(t, f, ino, slots, i + 1)
  {
    Joined(slots, i, slots[i], SetIn(t, f, ino, i).slots);
    assert slots[i := slots[i]] == slots;
  }

  lemma HalfwayTried(t: Tree, f: nat, ino: int, slots: seq<Slot>, i: nat)
    requires i < |t.slots| && Halfway(t, f, ino, slots, i)
    requires slots[i] == t.slots[i] && slots[i + 1..] == t.slots[i + 1..]
    requires slots[i].Sub?
    ensures var c := SetLeaf(slots[i].t, f, ino);
            var now := slots[i := Sub(c.0)];
            if c.1 > 0 then SetIn(t, f, ino, 0) == Stored(now, i, c.1) else Halfway(t, f, ino, now, i + 1)
  {
    Joined(slots, i, Sub(SetLeaf(slots[i].t, f, ino).0), SetIn(t, f, ino, i).slots);
  }

  lemma PowDown(f: nat, n: nat)
    requires f > 0
    ensures Pow(f, n + 1) / f == Pow(f, n)
  {
    Quotient(Pow(f, n), 0, f, Pow(f, n + 1));
  }
}
