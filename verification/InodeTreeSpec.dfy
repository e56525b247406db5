/**
 The radix tree of inodes as a value (src/fs/ramfs.c, btree_*).
 */
module InodeTreeSpec {
  import opened Division

  datatype Slot = Empty | Leaf(ino: int) | Sub(t: Tree)

  datatype Tree = Node(level: int, used: int, slots: seq<Slot>)

  function Pow(f: nat, n: nat): nat { if n == 0 then 1 else f * Pow(f, n - 1) }

  lemma {:induction false} PowPositive(f: nat, n: nat)
    requires f > 0
    ensures Pow(f, n) > 0
  {
    if n > 0 { PowPositive(f, n - 1); }
  }

  lemma DivRange(x: int, m: int, n: int)
    requires 0 < m && 0 <= x < n * m
    ensures 0 <= x / m < n && 0 <= x % m < m && x == x / m * m + x % m
  {
    var q := x / m;
    assert x == q * m + x % m;
    Less(q, n, m);
  }

  lemma Less(q: int, n: int, m: int)
    requires 0 < m && q * m < n * m && -m < q * m
    ensures 0 <= q < n
  {}

  // ---------- lookup ----------

  /** Every node of the tree has this many slots. */
  predicate Shaped(t: Tree, f: nat)
    decreases t
  {
    |t.slots| == f && forall i :: 0 <= i < |t.slots| ==> SlotShaped(t, f, i)
  }

  predicate SlotShaped(t: Tree, f: nat, i: int)
    requires 0 <= i < |t.slots|
    decreases t, 0
  {
    t.slots[i].Sub? ==> Shaped(t.slots[i].t, f)
  }

  /** The slot reached by going down `depth` levels; Empty where the path ends early. */
  function Get(t: Tree, f: nat, depth: nat, x: int): (s: Slot)
    requires f > 0 && Shaped(t, f) && 0 <= x < Pow(f, depth + 1)
    decreases depth
  {
    if depth == 0 then t.slots[x]
    else
      PowPositive(f, depth);
      DivRange(x, Pow(f, depth), f);
      var child := t.slots[x / Pow(f, depth)];
      assert SlotShaped(t, f, x / Pow(f, depth));
      if child.Sub? then Get(child.t, f, depth - 1, x % Pow(f, depth)) else Empty
  }

  /** btree_get_index on the root: nothing beyond its capacity. */
  function Lookup(t: Tree, f: nat, x: nat): (s: Slot)
    requires f > 0 && Shaped(t, f) && t.level >= 0
  {
    if x >= Pow(f, t.level + 1) then Empty else Get(t, f, t.level, x)
  }

  // ---------- uniform trees ----------

  function Filled(slots: seq<Slot>): (n: nat)
    ensures n <= |slots|
  {
    if slots == [] then 0 else Filled(slots[1..]) + if slots[0].Empty? then 0 else 1
  }

  predicate LevelOk(t: Tree, i: int)
    requires 0 <= i < |t.slots|
    decreases t, 0
  {
    if t.level == 0 then !t.slots[i].Sub?
    else t.slots[i].Empty? || (t.slots[i].Sub? && t.slots[i].t.level == t.level - 1 && Uniform(t.slots[i].t))
  }

  /** Levels count down to 0 on every path, and only nodes of level 0 hold inodes. */
  predicate Uniform(t: Tree)
    decreases t
  {
    && t.level >= 0 && (t.level == 0 ==> t.used == Filled(t.slots))
    && forall i :: 0 <= i < |t.slots| ==> LevelOk(t, i)
  }

  predicate ProperAt(t: Tree, depth: nat, i: int)
    requires 0 <= i < |t.slots|
    decreases t, 0
  {
    depth == 0 || t.slots[i].Empty? || (t.slots[i].Sub? && Proper(t.slots[i].t, depth - 1))
  }

  /** No path runs into an inode before it has gone down `depth` levels. */
  predicate Proper(t: Tree, depth: nat)
    decreases t
  {
    forall i :: 0 <= i < |t.slots| ==> ProperAt(t, depth, i)
  }

  lemma {:induction false} UniformProper(t: Tree)
    requires Uniform(t)
    ensures Proper(t, t.level)
    decreases t
  {
    forall i | 0 <= i < |t.slots| ensures ProperAt(t, t.level, i) {
      assert LevelOk(t, i);
      if t.slots[i].Sub? { UniformProper(t.slots[i].t); }
    }
  }

  // ---------- storing an inode ----------

  function FirstEmpty(slots: seq<Slot>): (i: int)
    ensures 0 <= i <= |slots|
    ensures i < |slots| ==> slots[i].Empty?
    ensures forall k :: 0 <= k < i ==> !slots[k].Empty?
  {
    if slots == [] then 0
    else if slots[0].Empty? then 0
    else
      assert forall k :: 1 <= k < |slots| ==> slots[k] == slots[1..][k - 1];
      1 + FirstEmpty(slots[1..])
  }

  datatype Stored = Stored(slots: seq<Slot>, child: int, index: int)

  /** The result is a tree and an index; the index 0 says that there was no room. */
  function SetLeaf(t: Tree, f: nat, ino: int): (r: (Tree, int))
    ensures r.0.level == t.level && |r.0.slots| == |t.slots|
    decreases t, |t.slots| + 1
  {
    if t.level <= 0 then
      var i := FirstEmpty(t.slots);
      if t.used < f && i < |t.slots|
      then (Node(t.level, t.used + 1, t.slots[i := Leaf(ino)]), i)
      else (t, 0)
    else
      var s := SetIn(t, f, ino, 0);
      (t.(slots := s.slots), if s.index > 0 then s.index + s.child * Pow(f, t.level) else 0)
  }

  /** Children from k on are tried in turn; one that reports index 0 is passed over, whatever it stored. */
  function SetIn(t: Tree, f: nat, ino: int, k: nat): (r: Stored)
    requires k <= |t.slots|
    ensures |r.slots| == |t.slots| - k && (r.index > 0 ==> k <= r.child < |t.slots|)
    decreases t, |t.slots| - k
  {
    if k == |t.slots| then Stored([], 0, 0)
    else if t.slots[k].Sub? then
      var first := SetLeaf(t.slots[k].t, f, ino);
      if first.1 > 0 then Stored([Sub(first.0)] + t.slots[k + 1..], k, first.1)
      else
        var rest := SetIn(t, f, ino, k + 1);
        Stored([Sub(first.0)] + rest.slots, rest.child, rest.index)
    else
      var rest := SetIn(t, f, ino, k + 1);
      Stored([t.slots[k]] + rest.slots, rest.child, rest.index)
  }

  /** What has become of child i when the children from k on were tried. */
  ghost predicate Tried(t: Tree, f: nat, ino: int, s: Stored, k: int, i: int)
    requires 0 <= k <= i < |t.slots| && |s.slots| == |t.slots| - k
  {
    var was := t.slots[i];
    var now := s.slots[i - k];
    if !was.Sub? || (s.index > 0 && i > s.child) then now == was
    else
      && now == Sub(SetLeaf(was.t, f, ino).0)
      && (if s.index > 0 && i == s.child then SetLeaf(was.t, f, ino).1 == s.index else SetLeaf(was.t, f, ino).1 <= 0)
  }

  lemma {:induction false} TriedAll(t: Tree, f: nat, ino: int, k: nat)
    requires k <= |t.slots|
    ensures var s := SetIn(t, f, ino, k);
            && (forall i :: k <= i < |t.slots| ==> Tried(t, f, ino, s, k, i))
            && (s.index > 0 ==> t.slots[s.child].Sub?) && s.index >= 0
    decreases |t.slots| - k
  {
    var s := SetIn(t, f, ino, k);
    if k < |t.slots| {
      TriedAll(t, f, ino, k + 1);
      var rest := SetIn(t, f, ino, k + 1);
      var next := k + 1;
      forall i | k <= i < |t.slots| ensures Tried(t, f, ino, s, k, i) {
        if i > k { assert Tried(t, f, ino, rest, next, i); }
      }
    }
  }

  lemma {:induction false} FilledAfter(slots: seq<Slot>, i: int, s: Slot)
    requires 0 <= i < |slots| && slots[i].Empty? && !s.Empty?
    ensures Filled(slots[i := s]) == Filled(slots) + 1
  {
    if i == 0 {
      assert slots[i := s][1..] == slots[1..];
    } else {
      assert slots[i := s][1..] == slots[1..][i - 1 := s];
      FilledAfter(slots[1..], i - 1, s);
    }
  }

  /** A uniform tree stays uniform, and the index is one of the tree. */
  lemma {:induction false} SetLeafKeeps(t: Tree, f: nat, ino: int)
    requires f > 0 && Shaped(t, f) && Uniform(t)
    ensures var (u, r) := SetLeaf(t, f, ino);
            Shaped(u, f) && Uniform(u) && u.level == t.level && 0 <= r < Pow(f, t.level + 1)
    decreases t
  {
    var (u, r) := SetLeaf(t, f, ino);
    PowPositive(f, t.level + 1);
    if t.level == 0 {
      var i := FirstEmpty(t.slots);
      if i < f { FilledAfter(t.slots, i, Leaf(ino)); }
      forall k | 0 <= k < f ensures SlotShaped(u, f, k) { assert SlotShaped(t, f, k); assert LevelOk(t, k); }
      forall k | 0 <= k < f ensures LevelOk(u, k) { assert LevelOk(t, k); }
      assert Pow(f, 1) == f * Pow(f, 0);
    } else {
      var s := SetIn(t, f, ino, 0);
      TriedAll(t, f, ino, 0);
      forall k | 0 <= k < f ensures SlotShaped(u, f, k) && LevelOk(u, k) {
        assert SlotShaped(t, f, k) && LevelOk(t, k) && Tried(t, f, ino, s, 0, k);
        if t.slots[k].Sub? { SetLeafKeeps(t.slots[k].t, f, ino); }
      }
      if s.index > 0 {
        var k := s.child;
        assert SlotShaped(t, f, k) && LevelOk(t, k) && Tried(t, f, ino, s, 0, k);
        SetLeafKeeps(t.slots[k].t, f, ino);
        IndexBound(k, s.index, Pow(f, t.level), f);
      }
    }
  }

  lemma IndexBound(k: int, r: int, m: int, f: int)
    requires 0 <= k < f && 0 <= r < m
    ensures 0 <= r + k * m < f * m
  {
    assert k * m <= (f - 1) * m;
    assert (f - 1) * m == f * m - m;
  }

  lemma ModOfSum(i: int, m: int, y: int, f: nat, d: nat)
    requires f > 0 && d > 0 && m == Pow(f, d)
    ensures (i * m + y) % f == y % f
  {
    var q := Pow(f, d - 1);
    var x, k := i * m + y, i * q + y / f;
    assert y == y / f * f + y % f;
    assert i * m == i * q * f by { assert m == f * q; }
    assert x == k * f + y % f;
    Quotient(k, y % f, f, x);
  }

  /** Going down one level. */
  lemma GetChild(t: Tree, f: nat, x: int)
    requires f > 0 && Shaped(t, f) && t.level > 0 && 0 <= x < Pow(f, t.level + 1)
    ensures var m := Pow(f, t.level); var i, y := x / m, x % m;
            && 0 < m && 0 <= i < f && 0 <= y < m && x == i * m + y && y % f == x % f
            && SlotShaped(t, f, i)
            && Get(t, f, t.level, x) == if t.slots[i].Sub? then Get(t.slots[i].t, f, t.level - 1, y) else Empty
  {
    var m := Pow(f, t.level);
    PowPositive(f, t.level);
    DivRange(x, m, f);
    ModOfSum(x / m, m, x % m, f, t.level);
    assert SlotShaped(t, f, x / m);
  }

  /** The digits of an index, in base f, are the slots on the way down; beyond the capacity there is nothing. */
  lemma LookupDigits(t: Tree, f: nat, x: nat)
    requires f > 0 && Shaped(t, f) && t.level >= 0
    ensures x >= Pow(f, t.level + 1) ==> Lookup(t, f, x) == Empty
    ensures t.level == 0 && x < f ==> Lookup(t, f, x) == t.slots[x]
    ensures t.level > 0 && x < Pow(f, t.level + 1) ==>
              var m := Pow(f, t.level);
              && 0 < m && x / m < f
              && match t.slots[x / m]
                 case Sub(c) => Shaped(c, f) && Lookup(t, f, x) == Get(c, f, t.level - 1, x % m)
                 case _ => Lookup(t, f, x) == Empty
  {
    assert Pow(f, 1) == f * Pow(f, 0);
    if t.level > 0 && x < Pow(f, t.level + 1) { GetChild(t, f, x); }
  }

  /** A single node with its first k slots taken hands out k. */
  lemma NextIndex(t: Tree, f: nat, ino: int, k: int)
    requires Shaped(t, f) && Uniform(t) && t.level == 0 && 0 <= k < f
    requires (forall i :: 0 <= i < k ==> !t.slots[i].Empty?) && t.slots[k].Empty?
    ensures SetLeaf(t, f, ino) == (Node(0, t.used + 1, t.slots[k := Leaf(ino)]), k)
  {
    RoomLeft(t.slots, k);
    assert FirstEmpty(t.slots) == k;
  }

  // ---------- when there is room ----------

  /** The leaf node that index x belongs to exists. */
  predicate OnLeaf(t: Tree, f: nat, x: int)
    requires f > 0 && Shaped(t, f) && t.level >= 0 && Uniform(t) && 0 <= x < Pow(f, t.level + 1)
    decreases t
  {
    t.level == 0 ||
    (GetChild(t, f, x);
     var i := x / Pow(f, t.level);
     assert LevelOk(t, i);
     t.slots[i].Sub? && OnLeaf(t.slots[i].t, f, x % Pow(f, t.level)))
  }

  /** Index x is free, in a leaf whose first slot is taken. */
  predicate Room(t: Tree, f: nat, x: int)
    requires f > 0 && Shaped(t, f) && Uniform(t)
  {
    && 0 <= x < Pow(f, t.level + 1) && OnLeaf(t, f, x)
    && Get(t, f, t.level, x).Empty? && 0 <= x - x % f && !Get(t, f, t.level, x - x % f).Empty?
  }

  /** Room is a matter of the child alone. */
  lemma RoomChild(t: Tree, f: nat, x: int)
    requires f > 0 && Shaped(t, f) && Uniform(t) && t.level > 0 && 0 <= x < Pow(f, t.level + 1)
    ensures var m := Pow(f, t.level);
            && 0 < m && 0 <= x / m < f && SlotShaped(t, f, x / m) && LevelOk(t, x / m)
            && (Room(t, f, x) <==> t.slots[x / m].Sub? && Room(t.slots[x / m].t, f, x % m))
  {
    var m := Pow(f, t.level);
    var i, y := x / m, x % m;
    GetChild(t, f, x);
    assert LevelOk(t, i);
    FirstOf(x, f, t.level);
    var x0, y0 := x - x % f, y - y % f;
    GetChild(t, f, x0);
    Floor(y, f);
    RoomIn(t, f, x, x0, i, y, y0);
  }

  lemma RoomIn(t: Tree, f: nat, x: int, x0: int, i: int, y: int, y0: int)
    requires f > 0 && Shaped(t, f) && Uniform(t) && t.level > 0 && 0 <= x < Pow(f, t.level + 1) && x0 == x - x % f
    requires Pow(f, t.level) > 0 && i == x / Pow(f, t.level) && y == x % Pow(f, t.level) && y0 == y - y % f
    requires 0 <= i < f && 0 <= y < Pow(f, t.level) && 0 <= y0 <= y && 0 <= x0 < Pow(f, t.level + 1)
    requires SlotShaped(t, f, i) && LevelOk(t, i)
    requires Get(t, f, t.level, x) == if t.slots[i].Sub? then Get(t.slots[i].t, f, t.level - 1, y) else Empty
    requires Get(t, f, t.level, x0) == if t.slots[i].Sub? then Get(t.slots[i].t, f, t.level - 1, y0) else Empty
    ensures Room(t, f, x) <==> t.slots[i].Sub? && Room(t.slots[i].t, f, y)
  {}

  /** The first index of x's leaf lies in the same child. */
  lemma FirstOf(x: int, f: nat, level: nat)
    requires f > 0 && level > 0 && 0 <= x < Pow(f, level + 1)
    ensures var m, x0 := Pow(f, level), x - x % f;
            0 < m && 0 <= x0 < Pow(f, level + 1) && x0 / m == x / m && x0 % m == x % m - x % m % f && x % m % f == x % f
  {
    var m := Pow(f, level);
    PowPositive(f, level);
    DivRange(x, m, f);
    var i, y := x / m, x % m;
    ModOfSum(i, m, y, f, level);
    Floor(y, f);
    Floor(x, f);
    Quotient(i, y - y % f, m, x - x % f);
  }

  lemma Floor(y: int, f: int)
    requires 0 <= y && 0 < f
    ensures 0 <= y - y % f <= y
  {
    var q := y / f;
    assert y == q * f + y % f;
    FloorFactor(q, f);
  }

  lemma FloorFactor(q: int, f: int)
    requires 0 < f && -f < q * f
    ensures 0 <= q && 0 <= q * f
  {}

  lemma {:induction false} RoomFound(t: Tree, f: nat, ino: int)
    requires f > 0 && Shaped(t, f) && Uniform(t) && SetLeaf(t, f, ino).1 > 0
    ensures Room(t, f, SetLeaf(t, f, ino).1)
    decreases t
  {
    SetLeafKeeps(t, f, ino);
    if t.level == 0 {
      assert Pow(f, 1) == f * Pow(f, 0);
      Quotient(0, SetLeaf(t, f, ino).1, f, SetLeaf(t, f, ino).1);
    } else {
      var s, r := SetIn(t, f, ino, 0), SetLeaf(t, f, ino).1;
      TriedAll(t, f, ino, 0);
      var k := s.child;
      assert SlotShaped(t, f, k) && LevelOk(t, k) && Tried(t, f, ino, s, 0, k);
      RoomFound(t.slots[k].t, f, ino);
      var m := Pow(f, t.level);
      GetChild(t, f, r);
      ChildOrder(t, f, ino, r, r / m, r % m, m);
      RoomChild(t, f, r);
    }
  }

  lemma {:induction false} RoomUsed(t: Tree, f: nat, ino: int, x: int)
    requires f > 0 && Shaped(t, f) && Uniform(t) && Room(t, f, x)
    ensures SetLeaf(t, f, ino).1 > 0
    decreases t
  {
    if t.level == 0 {
      assert Pow(f, 1) == f * Pow(f, 0);
      Quotient(0, x, f, x);
      RoomLeft(t.slots, x);
    } else {
      var m, s := Pow(f, t.level), SetIn(t, f, ino, 0);
      RoomChild(t, f, x);
      TriedAll(t, f, ino, 0);
      RoomUsed(t.slots[x / m].t, f, ino, x % m);
      assert Tried(t, f, ino, s, 0, x / m);
      GetChild(t, f, x);
      ChildOrder(t, f, ino, x, x / m, x % m, m);
    }
  }

  lemma {:induction false} RoomLeft(slots: seq<Slot>, x: int)
    requires 0 <= x < |slots| && slots[x].Empty?
    ensures Filled(slots) < |slots|
  {
    if x > 0 { RoomLeft(slots[1..], x - 1); }
  }

  /** The search succeeds exactly if some leaf has its first slot taken and another one free. */
  lemma RoomExact(t: Tree, f: nat, ino: int)
    requires f > 0 && Shaped(t, f) && Uniform(t)
    ensures SetLeaf(t, f, ino).1 > 0 <==> exists x :: Room(t, f, x)
  {
    if SetLeaf(t, f, ino).1 > 0 { RoomFound(t, f, ino); }
    if x :| Room(t, f, x) { RoomUsed(t, f, ino, x); }
  }

  lemma IndexOrder(k: int, r: int, m: int, i: int, y: int, x: int)
    requires 0 <= r < m && 0 <= y < m && x == i * m + y
    ensures i < k ==> x < r + k * m
    ensures i > k ==> x > r + k * m
    ensures i == k ==> (x < r + k * m <==> y < r) && (x == r + k * m <==> y == r)
  {
    if i < k { Products(i, k - 1, m); } else if i > k { Products(k, i - 1, m); }
  }

  lemma Products(a: int, b: int, m: int)
    requires a <= b && 0 < m
    ensures a * m <= b * m && (b + 1) * m == b * m + m
  {}

  /** How an index compares to the one returned, by its child and its place in that. */
  lemma ChildOrder(t: Tree, f: nat, ino: int, x: int, i: int, y: int, m: int)
    requires f > 0 && Shaped(t, f) && Uniform(t) && t.level > 0 && SetIn(t, f, ino, 0).index > 0
    requires m == Pow(f, t.level) && 0 <= y < m && x == i * m + y
    ensures var s, r := SetIn(t, f, ino, 0), SetLeaf(t, f, ino).1;
            && r > 0 && (x == r <==> i == s.child && y == s.index)
            && (x < r <==> i < s.child || (i == s.child && y < s.index))
  {
    var s := SetIn(t, f, ino, 0);
    TriedAll(t, f, ino, 0);
    assert SlotShaped(t, f, s.child) && LevelOk(t, s.child) && Tried(t, f, ino, s, 0, s.child);
    SetLeafKeeps(t.slots[s.child].t, f, ino);
    Products(0, s.child, m);
    IndexOrder(s.child, s.index, m, i, y, x);
  }

  /** It returns the least index with room. */
  lemma {:induction false} LeastRoom(t: Tree, f: nat, ino: int, x: int)
    requires f > 0 && Shaped(t, f) && Uniform(t) && Room(t, f, x)
    ensures 0 < SetLeaf(t, f, ino).1 <= x
    decreases t
  {
    RoomUsed(t, f, ino, x);
    if t.level == 0 {
      assert Pow(f, 1) == f * Pow(f, 0);
    } else {
      var m, s := Pow(f, t.level), SetIn(t, f, ino, 0);
      RoomChild(t, f, x);
      TriedAll(t, f, ino, 0);
      var i, y := x / m, x % m;
      assert Tried(t, f, ino, s, 0, i);
      LeastRoom(t.slots[i].t, f, ino, y);
      GetChild(t, f, x);
      ChildOrder(t, f, ino, x, i, y, m);
    }
  }

  /** Slot x is the first of its leaf and empty, and its leaf comes before index r, or r is 0. There the inode is stored
      and the success taken for a failure. */
  predicate Mislaid(t: Tree, f: nat, x: int, r: int)
    requires f > 0 && Shaped(t, f) && Uniform(t) && 0 <= x < Pow(f, t.level + 1)
  {
    x % f == 0 && OnLeaf(t, f, x) && Get(t, f, t.level, x).Empty? && (r == 0 || x < r)
  }

  /** What storing an inode does to every slot. */
  predicate StoresExactly(t: Tree, f: nat, ino: int, x: int)
    requires f > 0 && Shaped(t, f) && Uniform(t) && 0 <= x < Pow(f, t.level + 1)
  {
    var (u, r) := SetLeaf(t, f, ino);
    && Shaped(u, f) && u.level == t.level
    && Get(u, f, t.level, x) == if (r > 0 && x == r) || Mislaid(t, f, x, r) then Leaf(ino) else Get(t, f, t.level, x)
  }

  /** The inode is stored at the index returned, if that is not 0, and in every mislaid slot; no other slot changes. */
  lemma {:induction false} SetLeafExact(t: Tree, f: nat, ino: int, x: int)
    requires f > 0 && Shaped(t, f) && Uniform(t) && 0 <= x < Pow(f, t.level + 1)
    ensures StoresExactly(t, f, ino, x)
    decreases t
  {
    if t.level == 0 {
      SetLeafExactDown(t, f, ino, x);
    } else {
      GetChild(t, f, x);
      var i, y := x / Pow(f, t.level), x % Pow(f, t.level);
      assert LevelOk(t, i);
      if t.slots[i].Sub? { SetLeafExact(t.slots[i].t, f, ino, y); }
      SetLeafExactUp(t, f, ino, x, i, y);
    }
  }

  lemma SetLeafExactDown(t: Tree, f: nat, ino: int, x: int)
    requires f > 0 && Shaped(t, f) && Uniform(t) && t.level == 0 && 0 <= x < Pow(f, t.level + 1)
    ensures StoresExactly(t, f, ino, x)
  {
    assert Pow(f, 1) == f * Pow(f, 0);
    SetLeafKeeps(t, f, ino);
    Quotient(0, x, f, x);
    if t.slots[FirstOrLast(t.slots, x)].Empty? { RoomLeft(t.slots, FirstOrLast(t.slots, x)); }
  }

  function FirstOrLast(slots: seq<Slot>, x: int): (i: int)
    requires 0 <= x < |slots|
    ensures 0 <= i < |slots|
  {
    if FirstEmpty(slots) < |slots| then FirstEmpty(slots) else x
  }

  /** A slot is mislaid in the tree if it is in its child, and the child comes early enough. */
  lemma MislaidChild(t: Tree, f: nat, x: int, i: int, y: int, r: int)
    requires f > 0 && Shaped(t, f) && Uniform(t) && t.level > 0 && 0 <= x < Pow(f, t.level + 1)
    requires Pow(f, t.level) > 0 && i == x / Pow(f, t.level) && y == x % Pow(f, t.level)
    requires 0 <= i < f && 0 <= y < Pow(f, t.level) && LevelOk(t, i) && SlotShaped(t, f, i)
    ensures Mislaid(t, f, x, r) <==> t.slots[i].Sub? && Mislaid(t.slots[i].t, f, y, 0) && (r == 0 || x < r)
  {
    GetChild(t, f, x);
  }

  lemma SetLeafExactUp(t: Tree, f: nat, ino: int, x: int, i: int, y: int)
    requires f > 0 && Shaped(t, f) && Uniform(t) && t.level > 0 && 0 <= x < Pow(f, t.level + 1)
    requires Pow(f, t.level) > 0 && i == x / Pow(f, t.level) && y == x % Pow(f, t.level)
    requires 0 <= i < f && 0 <= y < Pow(f, t.level) && LevelOk(t, i)
    requires t.slots[i].Sub? ==> Shaped(t.slots[i].t, f) && StoresExactly(t.slots[i].t, f, ino, y)
    ensures StoresExactly(t, f, ino, x)
  {
    var u, s := SetLeaf(t, f, ino).0, SetIn(t, f, ino, 0);
    SetLeafKeeps(t, f, ino);
    TriedAll(t, f, ino, 0);
    GetChild(t, f, x);
    GetChild(u, f, x);
    MislaidChild(t, f, x, i, y, SetLeaf(t, f, ino).1);
    assert Tried(t, f, ino, s, 0, i);
    if s.index > 0 { ChildOrder(t, f, ino, x, i, y, Pow(f, t.level)); }
  }

  /** What may become of a slot: it stays, or an empty one gets the inode, where it is reported or at the start of a
      leaf. */
  predicate Change(was: Slot, now: Slot, ino: int, hit: bool, first: bool) {
    && (now == was || (was.Empty? && now == Leaf(ino) && (hit || first)))
    && (hit ==> was.Empty? && now == Leaf(ino))
  }

  /** Storing changes slot x as it may. */
  predicate Stores(t: Tree, f: nat, ino: int, x: int)
    requires f > 0 && Shaped(t, f) && t.level >= 0 && 0 <= x < Pow(f, t.level + 1)
  {
    var (u, r) := SetLeaf(t, f, ino);
    && Shaped(u, f) && u.level == t.level
    && Change(Get(t, f, t.level, x), Get(u, f, t.level, x), ino, r > 0 && x == r, x % f == 0)
  }

  /**
   What storing an inode does to lookups: nothing that was there changes; what is new is the inode; and it is new
   at the returned index, or at the first slot of a leaf, which is where the code takes a success for a failure.
   */
  lemma SetLeafGet(t: Tree, f: nat, ino: int, x: int)
    requires f > 0 && Shaped(t, f) && Uniform(t) && 0 <= x < Pow(f, t.level + 1)
    ensures Stores(t, f, ino, x)
  {
    SetLeafExact(t, f, ino, x);
    if SetLeaf(t, f, ino).1 > 0 { RoomFound(t, f, ino); }
  }

  // ---------- growing the tree ----------

  function Empties(n: nat): seq<Slot> { seq(n, _ => Empty) }

  /** A path of d + 1 new nodes through their first slots. Every one of them keeps the level 0 of a new node. */
  function Path(f: nat, d: nat): (t: Tree)
    requires f > 0
    ensures t.level == 0 && Shaped(t, f)
  {
    if d == 0 then Node(0, 0, Empties(f))
    else
      var t := Node(0, 1, [Sub(Path(f, d - 1))] + Empties(f - 1));
      assert forall i :: 0 <= i < f ==> SlotShaped(t, f, i);
      t
  }

  /** A new root over the old tree and a new path. */
  function Grow(t: Tree, f: nat): (r: Tree)
    requires f > 1 && t.level >= 0
  {
    Node(t.level + 1, 2, [Sub(t), Sub(Path(f, t.level))] + Empties(f - 2))
  }

  /** btree_new_leaf: the inode is stored if there is room; otherwise the tree grows, and the inode is not stored. */
  function NewLeaf(t: Tree, f: nat, ino: int): (r: (Tree, int))
    requires f > 1 && t.level >= 0
  {
    var (u, r) := SetLeaf(t, f, ino);
    if r > 0 then (u, r) else (Grow(u, f), Pow(f, t.level + 1))
  }

  lemma {:induction false} PathEmpty(f: nat, d: nat, x: int)
    requires f > 0 && 0 <= x < Pow(f, d + 1)
    ensures Get(Path(f, d), f, d, x).Empty?
  {
    if d == 0 {
      assert Pow(f, 1) == f * Pow(f, 0);
    } else {
      PowPositive(f, d);
      DivRange(x, Pow(f, d), f);
      if x / Pow(f, d) == 0 { PathEmpty(f, d - 1, x % Pow(f, d)); }
    }
  }

  lemma GrowShaped(t: Tree, f: nat)
    requires f > 1 && Shaped(t, f) && t.level >= 0
    ensures Shaped(Grow(t, f), f)
  {
    var g := Grow(t, f);
    forall i | 0 <= i < f ensures SlotShaped(g, f, i) {}
  }

  /** The old indices mean what they meant; everything above them is empty. */
  lemma GrowGet(t: Tree, f: nat, x: int)
    requires f > 1 && Shaped(t, f) && t.level >= 0 && 0 <= x < Pow(f, t.level + 2) && Shaped(Grow(t, f), f)
    ensures Get(Grow(t, f), f, t.level + 1, x)
         == if x < Pow(f, t.level + 1) then Get(t, f, t.level, x) else Empty
  {
    var g, m := Grow(t, f), Pow(f, t.level + 1);
    GetChild(g, f, x);
    if x < m { Quotient(0, x, m, x); }
    if x / m == 1 { PathEmpty(f, t.level, x % m); }
    if x >= m { Above(x, m); }
  }

  lemma Above(x: int, m: int)
    requires 0 < m <= x
    ensures x / m >= 1
  {
    assert x == x / m * m + x % m;
    AboveFactor(x / m, m);
  }

  lemma AboveFactor(q: int, m: int)
    requires 0 < m && q * m > 0
    ensures q >= 1
  {}

  /** The grown tree is uniform exactly if the old one was a single node: the nodes of a longer path have the wrong
      level. */
  lemma GrowUniform(t: Tree, f: nat)
    requires f > 1 && Shaped(t, f) && Uniform(t)
    ensures Uniform(Grow(t, f)) <==> t.level == 0
  {
    var g := Grow(t, f);
    if t.level == 0 {
      EmptyFilled(f);
      var p := Path(f, 0);
      forall i | 0 <= i < f ensures LevelOk(p, i) {}
      forall i | 0 <= i < f ensures LevelOk(g, i) {}
    } else {
      assert !LevelOk(g, 1);
    }
  }

  lemma {:induction false} EmptyFilled(n: nat)
    ensures Filled(Empties(n)) == 0
  {
    if n > 0 {
      assert Empties(n)[1..] == Empties(n - 1);
      EmptyFilled(n - 1);
    }
  }

  /** An index that is taken is never changed by adding an inode, whether or not the tree grows. */
  lemma NewLeafKeeps(t: Tree, f: nat, ino: int, x: nat)
    requires f > 1 && Shaped(t, f) && Uniform(t) && !Lookup(t, f, x).Empty?
    ensures Shaped(NewLeaf(t, f, ino).0, f) && NewLeaf(t, f, ino).0.level >= 0
    ensures Lookup(NewLeaf(t, f, ino).0, f, x) == Lookup(t, f, x)
  {
    var (u, r) := SetLeaf(t, f, ino);
    SetLeafKeeps(t, f, ino);
    SetLeafGet(t, f, ino, x);
    GrowShaped(u, f);
    PowGrows(f, t.level + 1);
    GrowGet(u, f, x);
  }

  lemma PowGrows(f: nat, n: nat)
    requires f > 1
    ensures Pow(f, n) < Pow(f, n + 1)
  {
    PowPositive(f, n);
    Twice(f, Pow(f, n));
  }

  lemma Twice(f: int, m: int)
    requires f > 1 && m > 0
    ensures m < f * m
  {}

  /**
   The index handed out: in the old range and holding the inode, when there was room; otherwise the first index
   above the old range, which stays empty.
   */
  lemma NewLeafIndex(t: Tree, f: nat, ino: int)
    requires f > 1 && Shaped(t, f) && Uniform(t)
    ensures var (u, r) := NewLeaf(t, f, ino);
            && Shaped(u, f) && u.level >= 0 && r > 0
            && (r < Pow(f, t.level + 1) ==>
                  Lookup(t, f, r).Empty? && Lookup(u, f, r) == Leaf(ino) && u.level == t.level)
            && (r >= Pow(f, t.level + 1) ==>
                  && r == Pow(f, t.level + 1) && Lookup(u, f, r).Empty? && u.level == t.level + 1
                  && (Uniform(u) <==> t.level == 0))
  {
    var (u, r) := SetLeaf(t, f, ino);
    SetLeafKeeps(t, f, ino);
    if r > 0 {
      SetLeafGet(t, f, ino, r);
    } else {
      var m := Pow(f, t.level + 1);
      PowPositive(f, t.level + 1);
      PowGrows(f, t.level + 1);
      GrowShaped(u, f);
      GrowGet(u, f, m);
      GrowUniform(u, f);
    }
  }
}
