/**
 The Internet checksum of src/core/net.c: section 1 of RFC 1071, section 3.1 of RFC 791.
 */
module InternetChecksum {

  type Byte = x: int | 0 <= x < 256

  const MAX := 0xFFFF

  // ---------- sums of big-endian words ----------

  function Join(high: int, low: int): int { 256 * high + low }

  /** The i-th 16-bit word; a last single byte is padded with zero. */
  function Word(data: seq<Byte>, i: nat): int
    requires 2 * i < |data|
  {
    Join(data[2 * i], if 2 * i + 1 < |data| then data[2 * i + 1] else 0)
  }

  /** Sum of the first n words. */
  function WordSum(data: seq<Byte>, n: nat): (s: nat)
    requires 2 * n <= |data| + 1
  {
    if n == 0 then 0 else WordSum(data, n - 1) + Word(data, n - 1)
  }

  function Words(data: seq<Byte>): nat { (|data| + 1) / 2 }

  predicate ZeroWord(data: seq<Byte>, i: nat)
    requires 2 * i < |data|
  {
    data[2 * i] == 0 && (2 * i + 1 < |data| ==> data[2 * i + 1] == 0)
  }

  lemma {:induction false} SumIsZero(data: seq<Byte>, n: nat)
    requires 2 * n <= |data| + 1
    ensures WordSum(data, n) == 0 <==> forall i :: 0 <= i < n ==> ZeroWord(data, i)
  {
    if n > 0 {
      SumIsZero(data, n - 1);
      assert Word(data, n - 1) == 0 <==> ZeroWord(data, n - 1);
    }
  }

  lemma ZeroWords(data: seq<Byte>)
    ensures (forall i :: 0 <= i < Words(data) ==> ZeroWord(data, i)) <==> forall k :: 0 <= k < |data| ==> data[k] == 0
  {
    if forall i :: 0 <= i < Words(data) ==> ZeroWord(data, i) {
      forall k | 0 <= k < |data| ensures data[k] == 0 {
        assert ZeroWord(data, k / 2);
        assert k == 2 * (k / 2) || k == 2 * (k / 2) + 1;
      }
    }
  }

  /** The number from 1 to 0xFFFF that is congruent to x modulo 0xFFFF, or 0 for 0. */
  function Folded(x: nat): (r: int)
    ensures 0 <= r <= MAX && (r == 0 <==> x == 0)
  {
    if x <= MAX then x else Folded(x - MAX)
  }

  lemma {:induction false} FoldedCongruent(x: nat)
    ensures Folded(x) % MAX == x % MAX
  {
    if x > MAX {
      FoldedCongruent(x - MAX);
      SameRemainder(x - MAX);
    }
  }

  lemma SameRemainder(x: int)
    ensures (x + MAX) % MAX == x % MAX
  {}

  /** Adding what is missing to 0xFFFF folds to 0xFFFF. */
  lemma {:induction false} FoldedComplement(x: nat)
    ensures Folded(x + MAX - Folded(x)) == MAX
  {
    if x > MAX { FoldedComplement(x - MAX); }
  }

  /** ones_complement: the carry comes back in at the bottom. */
  function OnesAdd(a: int, b: int): (r: int)
    requires 0 <= a <= MAX && 0 <= b <= MAX
    ensures 0 <= r <= MAX
  {
    var s := a + b;
    s % 0x1_0000 + s / 0x1_0000
  }

  lemma Carry(s: int)
    requires 0 <= s <= 2 * MAX
    ensures s % 0x1_0000 + s / 0x1_0000 == if s > MAX then s - MAX else s
  {}

  lemma {:induction false} OnesAddFolds(x: nat, w: int)
    requires 0 <= w <= MAX
    ensures OnesAdd(Folded(x), w) == Folded(x + w)
  {
    if x > MAX {
      OnesAddFolds(x - MAX, w);
    } else {
      Carry(x + w);
    }
  }

  /** ones_complement_words_sum. */
  method WordsSum(data: array<Byte>, from: nat, end: nat) returns (s: int)
    requires from <= end <= data.Length
    ensures s == Sum(data[from..end])
  {
    var len := end - from;
    ghost var d := data[from..end];
    assert Words(d) == len / 2 + len % 2;
    s := 0;
    var i := 0;
    while i < len / 2
      invariant 0 <= i <= len / 2 && s == Folded(WordSum(d, i))
    {
      var w := Join(data[from + 2 * i], data[from + 2 * i + 1]);
      assert w == Word(d, i);
      s := AddWord(s, w, WordSum(d, i));
      i := i + 1;
    }
    if len % 2 != 0 {
      var w := Join(data[from + len - 1], 0);
      assert w == Word(d, i);
      s := AddWord(s, w, WordSum(d, i));
    }
  }

  method AddWord(s: int, w: int, ghost x: nat) returns (r: int)
    requires 0 <= w <= MAX && s == Folded(x)
    ensures r == Folded(x + w)
  {
    r := OnesAdd(s, w);
    OnesAddFolds(x, w);
  }

  // ---------- writing the checksum field ----------

  function Put(data: seq<Byte>, at: nat, high: Byte, low: Byte): (r: seq<Byte>)
    requires at + 1 < |data|
    ensures |r| == |data|
  {
    data[at := high][at + 1 := low]
  }

  lemma PutAt(data: seq<Byte>, at: nat, high: Byte, low: Byte, i: nat)
    requires at + 1 < |data| && i < |data|
    ensures Put(data, at, high, low)[i] == if i == at then high else if i == at + 1 then low else data[i]
  {}

  /** The message with word j replaced. */
  function WithWord(data: seq<Byte>, j: nat, high: Byte, low: Byte): (r: seq<Byte>)
    requires 2 * j + 1 < |data|
    ensures |r| == |data|
  {
    Put(data, 2 * j, high, low)
  }

  lemma WithWordAgain(data: seq<Byte>, j: nat, high: Byte, low: Byte)
    requires 2 * j + 1 < |data|
    ensures WithWord(WithWord(data, j, 0, 0), j, high, low) == WithWord(data, j, high, low)
    ensures Word(WithWord(data, j, 0, 0), j) == 0
  {}

  /** A word inside a slice, and nothing outside it. */
  lemma PutSlice(data: seq<Byte>, from: nat, end: nat, j: nat, high: Byte, low: Byte)
    requires from + 2 * j + 1 < end <= |data|
    ensures var r := Put(data, from + 2 * j, high, low);
            && r[from..end] == WithWord(data[from..end], j, high, low)
            && r[..from] == data[..from] && r[end..] == data[end..]
  {
    assert data[from..end][2 * j] == data[from + 2 * j];
  }

  lemma {:induction false} SumWithWord(data: seq<Byte>, j: nat, high: Byte, low: Byte, n: nat)
    requires 2 * j + 1 < |data| && 2 * n <= |data| + 1
    ensures WordSum(WithWord(data, j, high, low), n) + (if j < n then Word(data, j) else 0)
         == WordSum(data, n) + if j < n then Join(high, low) else 0
  {
    if n > 0 { SumWithWord(data, j, high, low, n - 1); }
  }

  /** Sum of a whole message. */
  function Sum(data: seq<Byte>): (s: int)
    ensures 0 <= s <= MAX
  {
    Folded(WordSum(data, Words(data)))
  }

  /** The sum is congruent to the sum of the words, and 0 only for nothing but zeroes. */
  lemma SumLaw(data: seq<Byte>)
    ensures Sum(data) % MAX == WordSum(data, Words(data)) % MAX
    ensures Sum(data) == 0 <==> forall k :: 0 <= k < |data| ==> data[k] == 0
  {
    FoldedCongruent(WordSum(data, Words(data)));
    SumIsZero(data, Words(data));
    ZeroWords(data);
  }

  /** The first byte of a word is its upper half, and a single last byte is the upper half of a word. */
  lemma ByteOrder(a: Byte, b: Byte)
    ensures Sum([a, b]) == 256 * a + b && Sum([a]) == 256 * a
  {
    assert Words([a, b]) == 1 && Words([a]) == 1;
    assert WordSum([a, b], 1) == WordSum([a, b], 0) + Word([a, b], 0);
    assert WordSum([a], 1) == WordSum([a], 0) + Word([a], 0);
  }

  /** The sum of two messages put together, of which the first has an even number of bytes, is the folded sum of their
      sums. */
  lemma {:induction false} SumConcat(a: seq<Byte>, b: seq<Byte>)
    requires |a| % 2 == 0
    ensures Sum(a + b) == OnesAdd(Sum(a), Sum(b))
  {
    var n := Words(b);
    ConcatWords(a, b, n);
    assert Words(a + b) == |a| / 2 + n && Words(a) == |a| / 2;
    FoldedSum(WordSum(a, |a| / 2), WordSum(b, n));
  }

  lemma {:induction false} ConcatWords(a: seq<Byte>, b: seq<Byte>, n: nat)
    requires |a| % 2 == 0 && 2 * n <= |b| + 1
    ensures WordSum(a + b, |a| / 2 + n) == WordSum(a, |a| / 2) + WordSum(b, n)
  {
    if n > 0 {
      ConcatWords(a, b, n - 1);
      assert Word(a + b, |a| / 2 + n - 1) == Word(b, n - 1);
    } else {
      FrontWords(a, b, |a| / 2);
    }
  }

  lemma {:induction false} FrontWords(a: seq<Byte>, b: seq<Byte>, n: nat)
    requires 2 * n <= |a|
    ensures WordSum(a + b, n) == WordSum(a, n)
  {
    if n > 0 { FrontWords(a, b, n - 1); }
  }

  lemma {:induction false} FoldedSum(x: nat, y: nat)
    ensures Folded(x + y) == OnesAdd(Folded(x), Folded(y))
    decreases y
  {
    if y <= MAX {
      OnesAddFolds(x, y);
    } else {
      FoldedSum(x, y - MAX);
      assert Folded(x + y) == Folded(x + y - MAX);
    }
  }

  /** The word at `at` is the complement of the sum of data[from..end) with zeroes in its place. */
  predicate FieldIs(data: seq<Byte>, from: nat, end: nat, at: nat)
    requires from <= end <= |data| && at + 1 < |data|
  {
    256 * (data[at] as int) + data[at + 1] == 0xFFFF - Sum(Put(data, at, 0, 0)[from..end])
  }

  /** And with it there the whole sums to 0xFFFF. */
  predicate Checked(data: seq<Byte>, from: nat, end: nat, at: nat)
    requires from <= end <= |data| && at + 1 < |data|
  {
    Sum(data[from..end]) == 0xFFFF && FieldIs(data, from, end, at)
  }

  /** Once the complement of the sum stands in a field that was zero, the whole sums to 0xFFFF. */
  lemma ChecksumFits(data: seq<Byte>, j: nat, high: Byte, low: Byte)
    requires 2 * j + 1 < |data| && Word(data, j) == 0 && Join(high, low) == MAX - Sum(data)
    ensures Sum(WithWord(data, j, high, low)) == MAX
  {
    var done, n := WithWord(data, j, high, low), Words(data);
    SumWithWord(data, j, high, low, n);
    Completed(WordSum(data, n), Join(high, low), WordSum(done, n));
  }

  lemma Completed(x: nat, w: int, y: nat)
    requires w == MAX - Folded(x) && y == x + w
    ensures Folded(y) == MAX
  {
    FoldedComplement(x);
  }

  method SplitWord(w: int) returns (high: Byte, low: Byte)
    requires 0 <= w <= MAX
    ensures Join(high, low) == w
  {
    high, low := w / 256, w % 256;
  }

  /** A word in network byte order. */
  method SetWord(data: array<Byte>, at: nat, high: Byte, low: Byte)
    requires at + 1 < data.Length
    modifies data
    ensures data[..] == Put(old(data[..]), at, high, low)
  {
    data[at] := high;
    data[at + 1] := low;
  }

  /**
   Writes the checksum of data[from..end) into its word j. No other byte changes, and the bytes then sum to 0xFFFF,
   whatever their number.
   */
  method WriteChecksum(data: array<Byte>, from: nat, end: nat, j: nat)
    returns (sum: int, ghost high: Byte, ghost low: Byte)
    requires end <= data.Length && from + 2 * j + 1 < end
    modifies data
    ensures Checked(data[..], from, end, from + 2 * j)
    ensures sum == Sum(Put(old(data[..]), from + 2 * j, 0, 0)[from..end])
    ensures data[..] == Put(old(data[..]), from + 2 * j, high, low)
  {
    ghost var all := data[..];
    SetWord(data, from + 2 * j, 0, 0);
    ghost var zeroed := data[..];
    assert data[from..end] == zeroed[from..end];
    sum := WordsSum(data, from, end);
    var h, l := SplitWord(MAX - sum);
    SetWord(data, from + 2 * j, h, l);
    high, low := h, l;
    ghost var done := data[..];
    Written(all, zeroed, done, from, end, j, h, l, sum);
    assert data[from..end] == done[from..end];
  }

  lemma Written(all: seq<Byte>, zeroed: seq<Byte>, done: seq<Byte>, from: nat, end: nat, j: nat, h: Byte, l: Byte,
                sum: int)
    requires from + 2 * j + 1 < end <= |all| && zeroed == Put(all, from + 2 * j, 0, 0)
    requires done == Put(zeroed, from + 2 * j, h, l)
    requires sum == Sum(zeroed[from..end]) && Join(h, l) == MAX - sum
    ensures done == Put(all, from + 2 * j, h, l) && Checked(done, from, end, from + 2 * j)
  {
    assert Put(done, from + 2 * j, 0, 0) == zeroed;
    PutSlice(all, from, end, j, 0, 0);
    PutSlice(zeroed, from, end, j, h, l);
    WithWordAgain(all[from..end], j, h, l);
    ChecksumFits(zeroed[from..end], j, h, l);
  }

  const IPV4_HEADER := 20       // sizeof(struct ipv4_hdr_t)
  const ICMP_HEADER := 8        // sizeof(struct icmp_hdr_t)

  /** net_buf_ipv4_checksum: twenty bytes, the checksum in the sixth word. */
  method Ipv4Checksum(frame: array<Byte>, ip: nat) returns (sum: int, ghost high: Byte, ghost low: Byte)
    requires ip + IPV4_HEADER <= frame.Length
    modifies frame
    ensures Checked(frame[..], ip, ip + 20, ip + 10)
    ensures sum == Sum(Put(old(frame[..]), ip + 10, 0, 0)[ip..ip + 20])
    ensures frame[..] == Put(old(frame[..]), ip + 10, high, low)
  {
    sum, high, low := WriteChecksum(frame, ip, ip + IPV4_HEADER, 5);
  }

  /** The length of the packet, then the checksum of its header. */
  method FinishHeader(frame: array<Byte>, ip: nat, length: nat)
    requires ip + IPV4_HEADER <= frame.Length && length <= MAX
    modifies frame
    ensures Checked(frame[..], ip, ip + 20, ip + 10)
    ensures 256 * (frame[ip + 2] as int) + frame[ip + 3] == length
    ensures forall i :: 0 <= i < frame.Length && i !in {ip + 2, ip + 3, ip + 10, ip + 11} ==> frame[i] == old(frame[i])
  {
    var h, l := SplitWord(length);
    SetWord(frame, ip + 2, h, l);
    ghost var with := frame[..];
    ghost var high, low;
    var s;
    s, high, low := Ipv4Checksum(frame, ip);
    forall i | 0 <= i < frame.Length && i != ip + 10 && i != ip + 11 ensures frame[i] == with[i] {
      PutAt(with, ip + 10, high, low, i);
      assert frame[i] == frame[..][i];
    }
  }

  /** What the checksum of a message says depends on nothing outside it. */
  lemma CheckedKept(was: seq<Byte>, now: seq<Byte>, from: nat, end: nat, at: nat)
    requires |was| == |now| && from <= at && at + 1 < end <= |was| && was[from..end] == now[from..end]
    requires Checked(was, from, end, at)
    ensures Checked(now, from, end, at)
  {
    assert was[from..end][at - from] == now[from..end][at - from];
    assert was[from..end][at + 1 - from] == now[from..end][at + 1 - from];
    assert Put(was, at, 0, 0)[from..end] == Put(was[from..end], at - from, 0, 0);
    assert Put(now, at, 0, 0)[from..end] == Put(now[from..end], at - from, 0, 0);
  }

  /** The checksum of a message, in its second word. */
  method FinishMessage(frame: array<Byte>, from: nat, end: nat)
    requires from + 4 <= end <= frame.Length
    modifies frame
    ensures Checked(frame[..], from, end, from + 2)
    ensures forall i :: 0 <= i < frame.Length && i != from + 2 && i != from + 3 ==> frame[i] == old(frame[i])
  {
    ghost var was := frame[..];
    ghost var high, low;
    var s;
    s, high, low := WriteChecksum(frame, from, end, 1);
    forall i | 0 <= i < frame.Length && i != from + 2 && i != from + 3 ensures frame[i] == was[i] {
      PutAt(was, from + 2, high, low, i);
      assert frame[i] == frame[..][i];
    }
  }

  /** net_buf_icmp4_checksum: the message, whatever its length, then the length and the checksum of the header
      before it. */
  method IcmpChecksum(frame: array<Byte>, ip: nat, datalen: nat)
    requires ip + IPV4_HEADER + ICMP_HEADER + datalen <= frame.Length && IPV4_HEADER + ICMP_HEADER + datalen <= MAX
    modifies frame
    ensures Checked(frame[..], ip + 20, ip + 28 + datalen, ip + 22)
    ensures Checked(frame[..], ip, ip + 20, ip + 10)
    ensures 256 * (frame[ip + 2] as int) + frame[ip + 3] == 28 + datalen
    ensures forall i :: 0 <= i < frame.Length && i !in {ip + 2, ip + 3, ip + 10, ip + 11, ip + 22, ip + 23} ==>
              frame[i] == old(frame[i])
  {
    var icmp := ip + IPV4_HEADER;
    var end := icmp + ICMP_HEADER + datalen;
    FinishMessage(frame, icmp, end);
    ghost var message := frame[..];
    FinishHeader(frame, ip, end - ip);
    ghost var now := frame[..];
    forall i | icmp <= i < end ensures now[i] == message[i] {}
    assert now[icmp..end] == message[icmp..end];
    CheckedKept(message, now, icmp, end, icmp + 2);
  }
}
