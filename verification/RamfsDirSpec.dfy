/**
 The hash table of a ramfs directory as a value (src/fs/ramfs.c): eight buckets of entries in chain order.
 The string hash is a parameter: nothing depends on which function it is.
 */
module RamfsDirSpec {
  import opened FiniteSets
  import opened Options

  const BUCKETS := 8            // htcap

  datatype Entry = Entry(hash: nat, name: string, ino: int)

  type Chain = seq<Entry>

  /** Index of the entry with this name, or -1. */
  function Find(c: Chain, name: string): (k: int)
    ensures -1 <= k < |c|
    ensures k >= 0 ==> c[k].name == name
    ensures forall i :: 0 <= i < |c| && (k < 0 || i < k) ==> c[i].name != name
  {
    if c == [] then -1
    else if c[0].name == name then 0
    else
      var k := Find(c[1..], name);
      assert forall i :: 1 <= i < |c| && (k < 0 || i - 1 < k) ==> c[i] == c[1..][i - 1];
      if k < 0 then -1 else k + 1
  }

  // ---------- well-formed tables ----------

  predicate Placed(h: string -> nat, c: Chain, b: int, i: int)
    requires 0 <= i < |c|
  {
    c[i].hash == h(c[i].name) && c[i].hash % BUCKETS == b
  }

  predicate OtherName(c: Chain, i: int, j: int)
    requires 0 <= i < |c| && 0 <= j < |c|
  {
    c[i].name != c[j].name
  }

  ghost predicate ChainOk(h: string -> nat, c: Chain, b: int) {
    && (forall i :: 0 <= i < |c| ==> Placed(h, c, b, i))
    && (forall i, j :: 0 <= i < j < |c| ==> OtherName(c, i, j))
  }

  ghost predicate TableOk(h: string -> nat, t: seq<Chain>) {
    |t| == BUCKETS && forall b :: 0 <= b < BUCKETS ==> ChainOk(h, t[b], b)
  }

  function Bucket(h: string -> nat, name: string): int { h(name) % BUCKETS }

  /** The map a directory stands for. */
  function Lookup(h: string -> nat, t: seq<Chain>, name: string): (r: Option<int>)
    requires |t| == BUCKETS
  {
    var c := t[Bucket(h, name)];
    var k := Find(c, name);
    if k < 0 then None else Some(c[k].ino)
  }

  function Count(t: seq<Chain>): (n: nat) { if t == [] then 0 else |t[0]| + Count(t[1..]) }

  lemma {:induction false} CountUpdate(t: seq<Chain>, b: int, c: Chain)
    requires 0 <= b < |t|
    ensures Count(t[b := c]) + |t[b]| == Count(t) + |c|
  {
    if b == 0 {
      assert t[b := c][1..] == t[1..];
    } else {
      assert t[b := c][1..] == t[1..][b - 1 := c];
      CountUpdate(t[1..], b - 1, c);
    }
  }

  // ---------- insert and delete ----------

  function Append(t: seq<Chain>, b: int, e: Entry): seq<Chain>
    requires 0 <= b < |t|
  {
    t[b := t[b] + [e]]
  }

  function Without(c: Chain, k: int): Chain
    requires 0 <= k < |c|
  {
    c[..k] + c[k + 1..]
  }

  lemma {:induction false} FindUnique(c: Chain, name: string, k: int)
    requires 0 <= k < |c| && c[k].name == name && forall i, j :: 0 <= i < j < |c| ==> OtherName(c, i, j)
    ensures Find(c, name) == k
  {
    forall i | 0 <= i < k ensures c[i].name != name { assert OtherName(c, i, k); }
  }

  lemma AppendKeeps(h: string -> nat, t: seq<Chain>, e: Entry)
    requires TableOk(h, t) && e.hash == h(e.name) && Lookup(h, t, e.name).None?
    ensures TableOk(h, Append(t, Bucket(h, e.name), e))
  {
    var b := Bucket(h, e.name);
    var c, d := t[b], t[b] + [e];
    assert ChainOk(h, c, b);
    forall i | 0 <= i < |d| ensures Placed(h, d, b, i) { assert i < |c| ==> Placed(h, c, b, i); }
    forall i, j | 0 <= i < j < |d| ensures OtherName(d, i, j) {
      if j < |c| { assert OtherName(c, i, j); } else { assert c[i].name != e.name; }
    }
  }

  lemma {:induction false} FindAppend(c: Chain, e: Entry, name: string)
    ensures Find(c + [e], name) == if Find(c, name) >= 0 then Find(c, name) else if e.name == name then |c| else -1
  {
    var d := c + [e];
    var k := Find(d, name);
    if k >= 0 && k < |c| { assert c[k].name == name; }
    if Find(c, name) >= 0 { assert d[Find(c, name)].name == name; }
    if e.name == name { assert d[|c|].name == name; }
  }

  /** After an insertion the new name is bound and every other name is bound as before. */
  lemma AppendLookup(h: string -> nat, t: seq<Chain>, e: Entry, name: string)
    requires TableOk(h, t) && e.hash == h(e.name) && Lookup(h, t, e.name).None?
    ensures Lookup(h, Append(t, Bucket(h, e.name), e), name)
         == if name == e.name then Some(e.ino) else Lookup(h, t, name)
  {
    FindAppend(t[Bucket(h, e.name)], e, name);
  }

  lemma WithoutAt(c: Chain, k: int, i: int)
    requires 0 <= k < |c| && 0 <= i < |c| - 1
    ensures Without(c, k)[i] == c[if i < k then i else i + 1]
  {}

  lemma WithoutKeeps(h: string -> nat, t: seq<Chain>, b: int, k: int)
    requires TableOk(h, t) && 0 <= b < BUCKETS && 0 <= k < |t[b]|
    ensures TableOk(h, t[b := Without(t[b], k)])
  {
    var c, d := t[b], Without(t[b], k);
    assert ChainOk(h, c, b);
    forall i | 0 <= i < |d| ensures Placed(h, d, b, i) {
      WithoutAt(c, k, i);
      assert Placed(h, c, b, if i < k then i else i + 1);
    }
    forall i, j | 0 <= i < j < |d| ensures OtherName(d, i, j) {
      WithoutAt(c, k, i);
      WithoutAt(c, k, j);
      var u, v := if i < k then i else i + 1, if j < k then j else j + 1;
      assert OtherName(c, u, v);
    }
  }

  lemma FindWithout(h: string -> nat, c: Chain, b: int, k: int, name: string)
    requires ChainOk(h, c, b) && 0 <= k < |c|
    ensures name == c[k].name ==> Find(Without(c, k), name) < 0
    ensures name != c[k].name ==>
              var f, g := Find(c, name), Find(Without(c, k), name);
              (f < 0 <==> g < 0) && (f >= 0 ==> Without(c, k)[g] == c[f])
  {
    var d := Without(c, k);
    var f, g := Find(c, name), Find(d, name);
    FindUnique(c, c[k].name, k);
    if g >= 0 {
      WithoutAt(c, k, g);
      var u := if g < k then g else g + 1;
      FindUnique(c, name, u);
    } else if f >= 0 && f != k {
      var u := if f < k then f else f - 1;
      WithoutAt(c, k, u);
    }
  }

  /** After a deletion the name is unbound and every other name is bound as before. */
  lemma WithoutLookup(h: string -> nat, t: seq<Chain>, k: int, gone: string, name: string)
    requires TableOk(h, t) && 0 <= k < |t[Bucket(h, gone)]| && t[Bucket(h, gone)][k].name == gone
    ensures var b := Bucket(h, gone);
            Lookup(h, t[b := Without(t[b], k)], name) == if name == gone then None else Lookup(h, t, name)
  {
    var b := Bucket(h, gone);
    assert ChainOk(h, t[b], b);
    FindWithout(h, t[b], b, k, name);
  }

  /** The table without the entry of this name. */
  function Removed(h: string -> nat, t: seq<Chain>, name: string): seq<Chain>
    requires |t| == BUCKETS && Lookup(h, t, name).Some?
  {
    var b := Bucket(h, name);
    t[b := Without(t[b], Find(t[b], name))]
  }

  // ---------- search ----------

  function Trunc(s: string, n: nat): string { if |s| <= n then s else s[..n] }

  /** strncmp(s, e.name, n) is 0 and the hashes agree; p is what strncmp sees of s. */
  predicate Hit(e: Entry, hash: nat, p: string, n: nat) { e.hash == hash && Trunc(e.name, n) == p }

  /** Index of the first hit, or -1. */
  function FirstHit(c: Chain, hash: nat, p: string, n: nat): (k: int)
    ensures -1 <= k < |c|
    ensures k >= 0 ==> Hit(c[k], hash, p, n)
    ensures forall i :: 0 <= i < |c| && (k < 0 || i < k) ==> !Hit(c[i], hash, p, n)
  {
    if c == [] then -1
    else if Hit(c[0], hash, p, n) then 0
    else
      var k := FirstHit(c[1..], hash, p, n);
      assert forall i :: 1 <= i < |c| && (k < 0 || i - 1 < k) ==> c[i] == c[1..][i - 1];
      if k < 0 then -1 else k + 1
  }

  /** What ramfs_directory_search finds for the first n characters of s. */
  function Search(h: string -> nat, t: seq<Chain>, s: string, n: nat): (r: Option<int>)
    requires |t| == BUCKETS
  {
    var p := Trunc(s, n);
    var c := t[Bucket(h, p)];
    var k := FirstHit(c, h(p), p, n);
    if k < 0 then None else Some(c[k].ino)
  }

  /** Same hash; the same name, or one that begins with the n characters asked for. */
  predicate Answers(e: Entry, hash: nat, p: string, n: nat) {
    e.hash == hash && (e.name == p || (|p| == n && p < e.name))
  }

  /** The search finds the first such entry of the bucket that the hash chooses among the eight. */
  lemma SearchFinds(h: string -> nat, t: seq<Chain>, s: string, n: nat)
    requires |t| == 8
    ensures var p := if |s| <= n then s else s[..n]; var c := t[h(p) % 8];
            && (Search(h, t, s, n).None? <==> forall i :: 0 <= i < |c| ==> !Answers(c[i], h(p), p, n))
            && (Search(h, t, s, n).Some? ==>
                  exists i :: 0 <= i < |c| && Answers(c[i], h(p), p, n) && Search(h, t, s, n) == Some(c[i].ino) &&
                              forall j :: 0 <= j < i ==> !Answers(c[j], h(p), p, n))
  {
    var p := if |s| <= n then s else s[..n];
    var c := t[h(p) % 8];
    forall i | 0 <= i < |c| ensures Hit(c[i], h(p), p, n) == Answers(c[i], h(p), p, n) { HitAnswers(c[i], h(p), p, n); }
  }

  lemma HitAnswers(e: Entry, hash: nat, p: string, n: nat)
    requires |p| <= n
    ensures Hit(e, hash, p, n) == Answers(e, hash, p, n)
  {
    if |p| == n && p < e.name { assert Trunc(e.name, n) == p; }
  }

  /** The search answers for exactly the name it was asked for. */
  predicate Agrees(h: string -> nat, t: seq<Chain>, s: string, n: nat)
    requires |t| == BUCKETS
  {
    Search(h, t, s, n) == Lookup(h, t, Trunc(s, n))
  }

  /** An entry that the prefix comparison takes for p although its name is longer. */
  predicate Shadows(e: Entry, hash: nat, p: string, n: nat) {
    e.hash == hash && p < e.name && Trunc(e.name, n) == p
  }

  /** Nothing shadows the name asked for before its own entry; nothing at all, if it has none. */
  ghost predicate Clear(h: string -> nat, t: seq<Chain>, s: string, n: nat)
    requires |t| == BUCKETS
  {
    var p := Trunc(s, n);
    var c := t[Bucket(h, p)];
    forall i :: 0 <= i < (if Find(c, p) < 0 then |c| else Find(c, p)) ==> !Shadows(c[i], h(p), p, n)
  }

  /** A hit is the name itself or shadows it. */
  lemma HitName(h: string -> nat, c: Chain, b: int, i: int, p: string, n: nat)
    requires ChainOk(h, c, b) && 0 <= i < |c| && |p| <= n
    ensures Hit(c[i], h(p), p, n) <==> c[i].name == p || Shadows(c[i], h(p), p, n)
  {
    assert Placed(h, c, b, i);
  }

  /** The search stops at the name's own entry, or at none if there is none, if and only if nothing shadows it there. */
  lemma SearchExact(h: string -> nat, t: seq<Chain>, s: string, n: nat)
    requires TableOk(h, t)
    ensures var p := Trunc(s, n); var c := t[Bucket(h, p)];
            FirstHit(c, h(p), p, n) == Find(c, p) <==> Clear(h, t, s, n)
  {
    var p := Trunc(s, n);
    var b := Bucket(h, p);
    var c := t[b];
    assert ChainOk(h, c, b);
    var k, f := FirstHit(c, h(p), p, n), Find(c, p);
    if f >= 0 { HitName(h, c, b, f, p, n); }
    if k >= 0 { HitName(h, c, b, k, p, n); }
    if k == f {
      forall i | 0 <= i < (if f < 0 then |c| else f) ensures !Shadows(c[i], h(p), p, n) { HitName(h, c, b, i, p, n); }
    }
  }

  /** Then the search is the look-up of the map. */
  lemma SearchRight(h: string -> nat, t: seq<Chain>, s: string, n: nat)
    requires TableOk(h, t) && Clear(h, t, s, n)
    ensures Agrees(h, t, s, n)
  {
    SearchExact(h, t, s, n);
  }

  /** A length beyond the end of the string compares whole names: nothing shadows then, whatever the hash. */
  lemma SearchWhole(h: string -> nat, t: seq<Chain>, s: string, n: nat)
    requires TableOk(h, t) && n > |s|
    ensures Clear(h, t, s, n) && Agrees(h, t, s, n)
  {
    SearchRight(h, t, s, n);
  }

  /** A directory with the one entry q answers a search for p, when q only extends p and hashes alike. */
  lemma SearchWrong(h: string -> nat, p: string, q: string) returns (t: seq<Chain>)
    requires p < q && h(p) == h(q)
    ensures TableOk(h, t) && !Agrees(h, t, p, |p|)
  {
    var e, b := Entry(h(q), q, 1), Bucket(h, q);
    t := seq(BUCKETS, i => if i == b then [e] else []);
    assert Trunc(q, |p|) == p && Trunc(p, |p|) == p;
    assert t[b] == [e];
    forall i | 0 <= i < BUCKETS ensures ChainOk(h, t[i], i) {
      assert i == b ==> Placed(h, t[b], b, 0);
    }
    assert Hit(t[b][0], h(p), p, |p|);
  }

  function Below(m: nat): (s: set<nat>)
    ensures |s| == m && forall x: nat :: x in s <==> x < m
  {
    if m == 0 then {} else Below(m - 1) + {m - 1}
  }

  function Letters(k: nat): (s: string)
    ensures |s| == k
  {
    seq(k, _ => 'a')
  }

  /** Hashes of the strings of fewer than k letters. */
  function Hashes(h: string -> nat, k: nat): (s: set<nat>) { set i: nat | i < k :: h(Letters(i)) }

  /** As long as no two of them agree, there are as many hashes as strings. */
  lemma {:induction false} Pigeonhole(h: string -> nat, k: nat) returns (i: nat, j: nat)
    requires |Hashes(h, k)| != k
    ensures i < j < k && h(Letters(i)) == h(Letters(j))
  {
    var last := h(Letters(k - 1));
    assert Hashes(h, k) == Hashes(h, k - 1) + {last};
    if last in Hashes(h, k - 1) {
      j := k - 1;
      i :| i < k - 1 && h(Letters(i)) == last;
    } else {
      i, j := Pigeonhole(h, k - 1);
    }
  }

  /** With a bounded hash, as strhash is one, some directory always answers a search wrongly. */
  lemma NoHashIsSafe(h: string -> nat, bound: nat) returns (t: seq<Chain>, s: string)
    requires forall p :: h(p) < bound
    ensures TableOk(h, t) && !Agrees(h, t, s, |s|)
  {
    Fewer(Hashes(h, bound + 1), Below(bound));
    var i, j := Pigeonhole(h, bound + 1);
    assert Letters(i) < Letters(j);
    s := Letters(i);
    t := SearchWrong(h, s, Letters(j));
  }

  // ---------- listing ----------

  /** All entries, bucket after bucket. */
  function Flatten(t: seq<Chain>): (r: Chain)
    ensures |r| == Count(t)
  {
    if t == [] then [] else t[0] + Flatten(t[1..])
  }

  lemma FlattenEight(t: seq<Chain>)
    requires |t| == 8
    ensures Flatten(t) == t[0] + (t[1] + (t[2] + (t[3] + (t[4] + (t[5] + (t[6] + t[7]))))))
  {
    assert t[0..] == t && t[8..] == [] && t[7] + [] == t[7];
    FlattenFrom(t, 0);
    FlattenFrom(t, 1);
    FlattenFrom(t, 2);
    FlattenFrom(t, 3);
    FlattenFrom(t, 4);
    FlattenFrom(t, 5);
    FlattenFrom(t, 6);
    FlattenFrom(t, 7);
  }

  lemma FlattenFrom(t: seq<Chain>, k: nat)
    requires k < |t|
    ensures Flatten(t[k..]) == t[k] + Flatten(t[k + 1..])
  {
    assert t[k..][1..] == t[k + 1..];
  }

  function Offset(t: seq<Chain>, b: int): (n: nat)
    requires 0 <= b <= |t|
  {
    if b == 0 then 0 else |t[0]| + Offset(t[1..], b - 1)
  }

  lemma {:induction false} FlattenAt(t: seq<Chain>, b: int, i: int)
    requires 0 <= b < |t| && 0 <= i < |t[b]|
    ensures Offset(t, b) + i < Count(t) && Flatten(t)[Offset(t, b) + i] == t[b][i]
  {
    if b > 0 { FlattenAt(t[1..], b - 1, i); }
  }

  lemma {:induction false} OffsetNext(t: seq<Chain>, b: int)
    requires 0 <= b < |t|
    ensures Offset(t, b + 1) == Offset(t, b) + |t[b]| <= Count(t)
    ensures b + 1 == |t| ==> Offset(t, b + 1) == Count(t)
  {
    if b > 0 { OffsetNext(t[1..], b - 1); } else { assert Offset(t[1..], 0) == 0; }
  }

  lemma {:induction false} OffsetSkip(t: seq<Chain>, b: int, c: int)
    requires 0 <= b <= c <= |t| && forall i :: b <= i < c ==> t[i] == []
    ensures Offset(t, c) == Offset(t, b)
    decreases c
  {
    if b < c {
      OffsetSkip(t, b, c - 1);
      OffsetNext(t, c - 1);
    }
  }

  /** Every place in the flat order is a place in some bucket. */
  lemma {:induction false} FlattenSplit(t: seq<Chain>, k: int) returns (b: int, i: int)
    requires 0 <= k < Count(t)
    ensures 0 <= b < |t| && 0 <= i < |t[b]| && k == Offset(t, b) + i && Flatten(t)[k] == t[b][i]
  {
    if k < |t[0]| {
      b, i := 0, k;
    } else {
      b, i := FlattenSplit(t[1..], k - |t[0]|);
      b := b + 1;
    }
  }

  lemma {:induction false} OffsetMonotone(t: seq<Chain>, b: int, c: int)
    requires 0 <= b < c < |t|
    ensures Offset(t, b) + |t[b]| <= Offset(t, c)
    decreases c
  {
    OffsetNext(t, c - 1);
    if b < c - 1 { OffsetMonotone(t, b, c - 1); }
  }

  /** Looking a hash up in its bucket finds the first entry of the flat order that has it. */
  lemma FlattenHash(h: string -> nat, t: seq<Chain>, hash: nat)
    requires TableOk(h, t)
    ensures var b := hash % BUCKETS; var i := FirstHash(t[b], hash);
            FirstHash(Flatten(t), hash) == if i < 0 then -1 else Offset(t, b) + i
  {
    var b := hash % BUCKETS;
    var i, f := FirstHash(t[b], hash), FirstHash(Flatten(t), hash);
    if i >= 0 { FlattenAt(t, b, i); }
    if f >= 0 {
      var c, j := FlattenSplit(t, f);
      assert ChainOk(h, t[c], c) && Placed(h, t[c], c, j);
    }
  }

  /** Index of the first entry with this hash, or -1. */
  function FirstHash(c: Chain, hash: nat): (k: int)
    ensures -1 <= k < |c|
    ensures k >= 0 ==> c[k].hash == hash
    ensures forall i :: 0 <= i < |c| && (k < 0 || i < k) ==> c[i].hash != hash
  {
    if c == [] then -1
    else if c[0].hash == hash then 0
    else
      var k := FirstHash(c[1..], hash);
      assert forall i :: 1 <= i < |c| && (k < 0 || i - 1 < k) ==> c[i] == c[1..][i - 1];
      if k < 0 then -1 else k + 1
  }

  /** Position that an iterator value stands for: 0 is the start, a hash the first entry that has it. */
  function Position(order: Chain, iter: nat): int { if iter == 0 then 0 else FirstHash(order, iter) }

  /** Iterator value behind position k; 0 ends the listing. */
  function Behind(order: Chain, k: int): nat
    requires 0 <= k < |order|
  {
    if k + 1 < |order| then order[k + 1].hash else 0
  }

  /** Iterator value before the n-th call. */
  function IterAt(order: Chain, n: nat): (r: Option<nat>)
    requires order != []
  {
    if n == 0 then Some(0)
    else
      match IterAt(order, n - 1)
      case None => None
      case Some(iter) => if Position(order, iter) < 0 then None else Some(Behind(order, Position(order, iter)))
  }

  /** The n-th call returns entry n and does not end the listing too early. */
  predicate Visits(order: Chain, n: int)
    requires 0 <= n < |order|
  {
    match IterAt(order, n)
    case None => false
    case Some(iter) => Position(order, iter) == n && (n > 0 ==> iter != 0)
  }

  /** Every entry is returned exactly once, and then the end is signalled. */
  ghost predicate Listed(order: Chain)
    requires order != []
  {
    (forall n :: 0 <= n < |order| ==> Visits(order, n)) && IterAt(order, |order|) == Some(0)
  }

  predicate OtherHash(order: Chain, i: int, j: int)
    requires 0 <= i < |order| && 0 <= j < |order|
  {
    order[i].hash != order[j].hash
  }

  predicate NonZero(order: Chain, i: int)
    requires 0 <= i < |order|
  {
    order[i].hash != 0
  }

  /** Hashes are distinct and, but for the first one, not 0. */
  ghost predicate Listable(order: Chain) {
    && (forall i, j :: 0 <= i < j < |order| ==> OtherHash(order, i, j))
    && (forall i :: 0 < i < |order| ==> NonZero(order, i))
  }

  lemma {:induction false} VisitsAll(order: Chain, n: int)
    requires Listable(order) && 0 <= n < |order|
    ensures Visits(order, n)
  {
    if n > 0 {
      VisitsAll(order, n - 1);
      assert NonZero(order, n);
      forall i | 0 <= i < n ensures order[i].hash != order[n].hash { assert OtherHash(order, i, n); }
      assert FirstHash(order, order[n].hash) == n;
    }
  }

  /** One call of a complete listing. */
  lemma ListStep(order: Chain, n: int, iter: nat)
    requires Listable(order) && 0 <= n < |order| && IterAt(order, n) == Some(iter)
    ensures Position(order, iter) == n && IterAt(order, n + 1) == Some(Behind(order, n))
    ensures Behind(order, n) == 0 <==> n + 1 == |order|
    ensures order[..n] + [order[n]] == order[..n + 1] && (n + 1 == |order| ==> order[..n + 1] == order)
  {
    VisitsAll(order, n);
    if n + 1 < |order| { assert NonZero(order, n + 1); }
  }

  /** The listing is complete if and only if hashes are distinct and nonzero, the first entry's own hash not
      mattering. */
  lemma ListedExact(order: Chain)
    requires order != []
    ensures Listed(order) <==> Listable(order)
  {
    if Listable(order) {
      forall n | 0 <= n < |order| ensures Visits(order, n) { VisitsAll(order, n); }
      assert Visits(order, |order| - 1);
    }
    if Listed(order) {
      forall j | 0 < j < |order| ensures order[j].hash != 0 && FirstHash(order, order[j].hash) == j {
        assert Visits(order, j - 1) && Visits(order, j);
      }
      forall i, j | 0 <= i < j < |order| ensures OtherHash(order, i, j) {
        assert FirstHash(order, order[j].hash) == j;
      }
      forall j | 0 < j < |order| ensures NonZero(order, j) {}
    }
  }
}
