/**
 The Ethernet frame check sequence (lib/c/src/crc32.c): a table-driven, bit-reversing form that equals the reflected
 CRC-32 of section 3.2.9 of IEEE 802.3. The laws are proved for maps of any kind of register and then used for 32 bits.
 */
module Crc32 {
  import opened CrcTable

  const ONES: bv32 := 0xFFFF_FFFF

  // ---------- registers in general ----------

  /** Register after a string of bytes: each is placed, added and followed by one round. */
  function Update<R>(round: R -> R, add: (R, R) -> R, place: bv8 -> R, c: R, data: seq<bv8>): R
    decreases |data|
  {
    if data == [] then c
    else round(add(Update(round, add, place, c, data[..|data| - 1]), place(data[|data| - 1])))
  }

  /** An update over two pieces is two updates. */
  lemma {:induction false} UpdateConcat<R>(round: R -> R, add: (R, R) -> R, place: bv8 -> R, c: R, a: seq<bv8>,
                                           b: seq<bv8>)
    ensures Update(round, add, place, c, a + b) == Update(round, add, place, Update(round, add, place, c, a), b)
    decreases |b|
  {
    if b == [] {
      assert a + b == a;
    } else {
      assert (a + b)[..|a + b| - 1] == a + b[..|b| - 1];
      UpdateConcat(round, add, place, c, a, b[..|b| - 1]);
    }
  }

  predicate TraceAt<R(==)>(round: R -> R, add: (R, R) -> R, place: bv8 -> R, regs: seq<R>, data: seq<bv8>, k: int) {
    0 <= k < |data| && |regs| == |data| + 1 && regs[k + 1] == round(add(regs[k], place(data[k])))
  }

  /** The registers on the way through a string of bytes. */
  lemma {:induction false} Traced<R(!new)>(round: R -> R, add: (R, R) -> R, place: bv8 -> R, regs: seq<R>,
                                           data: seq<bv8>, n: nat)
    requires |regs| == |data| + 1 && n <= |data|
    requires forall k :: 0 <= k < |data| ==> TraceAt(round, add, place, regs, data, k)
    ensures Update(round, add, place, regs[0], data[..n]) == regs[n]
  {
    if n > 0 {
      Traced(round, add, place, regs, data, n - 1);
      UpdateNext(round, add, place, regs[0], data, n - 1);
      assert TraceAt(round, add, place, regs, data, n - 1);
    }
  }

  predicate TwiceAt<R(==)>(f: R -> R, h: R -> R, c: R) { h(c) == f(f(c)) }

  /** h is two rounds of f. */
  ghost predicate Twice<R(!new)>(f: R -> R, h: R -> R) { forall c :: TwiceAt(f, h, c) }

  predicate AddsAt<R(==)>(f: R -> R, add: (R, R) -> R, a: R, b: R) { f(add(a, b)) == add(f(a), f(b)) }

  ghost predicate Additive<R(!new)>(f: R -> R, add: (R, R) -> R) { forall a, b :: AddsAt(f, add, a, b) }

  lemma AdditiveTwice<R(!new)>(f: R -> R, h: R -> R, add: (R, R) -> R)
    requires Additive(f, add) && Twice(f, h)
    ensures Additive(h, add)
  {
    forall a, b ensures AddsAt(h, add, a, b) {
      assert AddsAt(f, add, a, b) && AddsAt(f, add, f(a), f(b));
      assert TwiceAt(f, h, a) && TwiceAt(f, h, b) && TwiceAt(f, h, add(a, b));
    }
  }

  /** A test that tells whether a coefficient is zero. */
  predicate TestsAt<R>(zero: R -> bool, add: (R, R) -> R, a: R, b: R) { zero(add(a, b)) == (zero(a) == zero(b)) }

  ghost predicate Tests<R(!new)>(zero: R -> bool, add: (R, R) -> R) { forall a, b :: TestsAt(zero, add, a, b) }

  predicate AssociatesAt<R(==)>(add: (R, R) -> R, a: R, b: R, c: R) { add(add(a, b), c) == add(a, add(b, c)) }

  ghost predicate Associates<R(!new)>(add: (R, R) -> R) { forall a, b, c :: AssociatesAt(add, a, b, c) }

  predicate CommutesAt<R(==)>(add: (R, R) -> R, a: R, b: R) { add(a, b) == add(b, a) }

  ghost predicate Commutes<R(!new)>(add: (R, R) -> R) { forall a, b :: CommutesAt(add, a, b) }

  predicate CancelsAt<R(==)>(add: (R, R) -> R, a: R, p: R) { add(add(a, p), p) == a }

  ghost predicate Cancels<R(!new)>(add: (R, R) -> R) { forall a, p :: CancelsAt(add, a, p) }

  /** Addition as it is in GF(2): associative, commutative, and every element its own opposite. */
  ghost predicate Binary<R(!new)>(add: (R, R) -> R) { Associates(add) && Commutes(add) && Cancels(add) }

  lemma MovesOut<R(!new)>(add: (R, R) -> R, p: R, a: R, b: R)
    requires Binary(add)
    ensures add(a, add(b, p)) == add(add(a, b), p) && add(add(a, p), b) == add(add(a, b), p)
    ensures add(add(a, p), add(b, p)) == add(a, b)
  {
    assert AssociatesAt(add, a, b, p) && AssociatesAt(add, a, p, b) && CommutesAt(add, p, b);
    assert AssociatesAt(add, add(a, p), b, p) && CancelsAt(add, add(a, b), p);
  }

  /** One step of a division by p. */
  predicate StepsAt<R(==)>(f: R -> R, up: R -> R, zero: R -> bool, add: (R, R) -> R, p: R, c: R) {
    f(c) == if zero(c) then up(c) else add(up(c), p)
  }

  ghost predicate Steps<R(!new)>(f: R -> R, up: R -> R, zero: R -> bool, add: (R, R) -> R, p: R) {
    forall c :: StepsAt(f, up, zero, add, p, c)
  }

  lemma AdditiveStep<R(!new)>(f: R -> R, up: R -> R, zero: R -> bool, add: (R, R) -> R, p: R)
    requires Steps(f, up, zero, add, p) && Additive(up, add) && Tests(zero, add) && Binary(add)
    ensures Additive(f, add)
  {
    forall a, b ensures AddsAt(f, add, a, b) {
      MovesOut(add, p, up(a), up(b));
      assert AddsAt(up, add, a, b) && TestsAt(zero, add, a, b);
      assert StepsAt(f, up, zero, add, p, a) && StepsAt(f, up, zero, add, p, b);
      assert StepsAt(f, up, zero, add, p, add(a, b));
    }
  }

  predicate MirrorsAt<R(==)>(rev: R -> R, f: R -> R, g: R -> R, c: R) { rev(f(c)) == g(rev(c)) }

  /** rev turns f into g. */
  ghost predicate Mirrors<R(!new)>(rev: R -> R, f: R -> R, g: R -> R) { forall c :: MirrorsAt(rev, f, g, c) }

  lemma MirrorsTwice<R(!new)>(rev: R -> R, f: R -> R, g: R -> R, f2: R -> R, g2: R -> R)
    requires Mirrors(rev, f, g) && Twice(f, f2) && Twice(g, g2)
    ensures Mirrors(rev, f2, g2)
  {
    forall c ensures MirrorsAt(rev, f2, g2, c) {
      assert MirrorsAt(rev, f, g, c) && MirrorsAt(rev, f, g, f(c));
      assert TwiceAt(f, f2, c) && TwiceAt(g, g2, rev(c));
    }
  }

  predicate PlacesAt<R(==)>(rev: R -> R, place: bv8 -> R, other: bv8 -> R, b: bv8) { rev(place(b)) == other(b) }

  ghost predicate Places<R>(rev: R -> R, place: bv8 -> R, other: bv8 -> R) {
    forall b :: PlacesAt(rev, place, other, b)
  }

  /** An additive map that turns one round and one way of placing bytes into another turns the one update into the
      other. */
  lemma {:induction false} MirrorsUpdate<R(!new)>(rev: R -> R, add: (R, R) -> R, f: R -> R, g: R -> R,
                                                  place: bv8 -> R, other: bv8 -> R, c: R, data: seq<bv8>)
    requires Additive(rev, add) && Mirrors(rev, f, g) && Places(rev, place, other)
    ensures rev(Update(f, add, place, c, data)) == Update(g, add, other, rev(c), data)
    decreases |data|
  {
    if data != [] {
      var front, b := data[..|data| - 1], data[|data| - 1];
      MirrorsUpdate(rev, add, f, g, place, other, c, front);
      var d := Update(f, add, place, c, front);
      assert AddsAt(rev, add, d, place(b)) && PlacesAt(rev, place, other, b) && MirrorsAt(rev, f, g, add(d, place(b)));
    }
  }

  // ---------- the reference: least significant bit first ----------

  function Lsb1(c: bv32): bv32 { if c & 1 == 0 then c >> 1 else (c >> 1) ^ 0xEDB8_8320 }

  function Lsb2(c: bv32): bv32 { Lsb1(Lsb1(c)) }

  function Lsb4(c: bv32): bv32 { Lsb2(Lsb2(c)) }

  function Lsb8(c: bv32): bv32 { Lsb4(Lsb4(c)) }

  function Xor(a: bv32, b: bv32): bv32 { a ^ b }

  function Bottom(b: bv8): bv32 { b as bv32 }

  /** The frame check sequence: eight steps for each byte, initial and final register all ones. */
  function Fcs(data: seq<bv8>): bv32 { Xor(Update(Lsb8, Xor, Bottom, 0xFFFF_FFFF, data), 0xFFFF_FFFF) }

  const DIGITS: seq<bv8> := [0x31, 0x32, 0x33, 0x34, 0x35, 0x36, 0x37, 0x38, 0x39]

  /** The register before and after each of them. */
  const REGISTERS: seq<bv32> := [
    0xFFFF_FFFF, 0x7C23_1048, 0xB0AC_BB32, 0x77B7_9C2D, 0x641C_1F5C,
    0x340A_C5E3, 0xF68D_2C9E, 0xAFFC_9660, 0x651F_2550, 0x340B_C6D9
  ]

  lemma FirstRounds()
    ensures |DIGITS| == 9 && |REGISTERS| == 10
    ensures TraceAt(Lsb8, Xor, Bottom, REGISTERS, DIGITS, 0)
    ensures TraceAt(Lsb8, Xor, Bottom, REGISTERS, DIGITS, 1)
    ensures TraceAt(Lsb8, Xor, Bottom, REGISTERS, DIGITS, 2)
  {}

  lemma MiddleRounds()
    ensures |DIGITS| == 9 && |REGISTERS| == 10
    ensures TraceAt(Lsb8, Xor, Bottom, REGISTERS, DIGITS, 3)
    ensures TraceAt(Lsb8, Xor, Bottom, REGISTERS, DIGITS, 4)
    ensures TraceAt(Lsb8, Xor, Bottom, REGISTERS, DIGITS, 5)
  {}

  lemma LastRounds()
    ensures |DIGITS| == 9 && |REGISTERS| == 10
    ensures TraceAt(Lsb8, Xor, Bottom, REGISTERS, DIGITS, 6)
    ensures TraceAt(Lsb8, Xor, Bottom, REGISTERS, DIGITS, 7)
    ensures TraceAt(Lsb8, Xor, Bottom, REGISTERS, DIGITS, 8)
  {}

  lemma Ends()
    ensures REGISTERS[0] == 0xFFFF_FFFF && Xor(REGISTERS[9], 0xFFFF_FFFF) == 0xCBF4_3926
  {}

  lemma Trace9<R(!new)>(round: R -> R, add: (R, R) -> R, place: bv8 -> R, regs: seq<R>, data: seq<bv8>)
    requires |data| == 9 && |regs| == 10
    requires TraceAt(round, add, place, regs, data, 0)
    requires TraceAt(round, add, place, regs, data, 1)
    requires TraceAt(round, add, place, regs, data, 2)
    requires TraceAt(round, add, place, regs, data, 3)
    requires TraceAt(round, add, place, regs, data, 4)
    requires TraceAt(round, add, place, regs, data, 5)
    requires TraceAt(round, add, place, regs, data, 6)
    requires TraceAt(round, add, place, regs, data, 7)
    requires TraceAt(round, add, place, regs, data, 8)
    ensures Update(round, add, place, regs[0], data) == regs[9]
  {
    forall k | 0 <= k < 9 ensures TraceAt(round, add, place, regs, data, k) {}
    Traced(round, add, place, regs, data, 9);
    assert data[..9] == data;
  }

  /** The check value of the CRC-32: that of the nine digits "123456789". */
  lemma CheckValue()
    ensures Fcs(DIGITS) == 0xCBF4_3926
  {
    FirstRounds();
    MiddleRounds();
    LastRounds();
    Trace9(Lsb8, Xor, Bottom, REGISTERS, DIGITS);
    Ends();
  }

  // ---------- bit reversal ----------

  function RevNib(n: bv8): bv8 { ((n & 1) << 3) | ((n & 2) << 1) | ((n & 4) >> 1) | ((n & 8) >> 3) }

  function Rev8(b: bv8): bv8 { (RevNib(b & 15) << 4) | RevNib(b >> 4) }

  /** Bit i of the result is bit 31 - i of x. */
  function Rev32(x: bv32): bv32 {
    ((x & 0x0000_0001) << 31) | ((x & 0x0000_0002) << 29) | ((x & 0x0000_0004) << 27) | ((x & 0x0000_0008) << 25) |
    ((x & 0x0000_0010) << 23) | ((x & 0x0000_0020) << 21) | ((x & 0x0000_0040) << 19) | ((x & 0x0000_0080) << 17) |
    ((x & 0x0000_0100) << 15) | ((x & 0x0000_0200) << 13) | ((x & 0x0000_0400) << 11) | ((x & 0x0000_0800) << 9) |
    ((x & 0x0000_1000) << 7) | ((x & 0x0000_2000) << 5) | ((x & 0x0000_4000) << 3) | ((x & 0x0000_8000) << 1) |
    ((x & 0x0001_0000) >> 1) | ((x & 0x0002_0000) >> 3) | ((x & 0x0004_0000) >> 5) | ((x & 0x0008_0000) >> 7) |
    ((x & 0x0010_0000) >> 9) | ((x & 0x0020_0000) >> 11) | ((x & 0x0040_0000) >> 13) | ((x & 0x0080_0000) >> 15) |
    ((x & 0x0100_0000) >> 17) | ((x & 0x0200_0000) >> 19) | ((x & 0x0400_0000) >> 21) | ((x & 0x0800_0000) >> 23) |
    ((x & 0x1000_0000) >> 25) | ((x & 0x2000_0000) >> 27) | ((x & 0x4000_0000) >> 29) | ((x & 0x8000_0000) >> 31)
  }

  const NIB_REVERSE: seq<bv8> := [0x0, 0x8, 0x4, 0xC, 0x2, 0xA, 0x6, 0xE, 0x1, 0x9, 0x5, 0xD, 0x3, 0xB, 0x7, 0xF]

  lemma NibTable(n: bv8)
    requires n < 16
    ensures |NIB_REVERSE| == 16 && NIB_REVERSE[n as int] == RevNib(n)
  {}

  lemma RevAdds(a: bv32, b: bv32)
    ensures Rev32(a ^ b) == Rev32(a) ^ Rev32(b)
  {}

  lemma RevShift(c: bv32)
    ensures Rev32(c << 1) == Rev32(c) >> 1
  {}

  lemma RevTop(c: bv32)
    ensures (c & 0x8000_0000 == 0) == (Rev32(c) & 1 == 0)
  {}

  lemma RevConstants()
    ensures Rev32(0x04C1_1DB7) == 0xEDB8_8320 && Rev32(ONES) == ONES
  {}

  lemma RevSubtract(c: bv32)
    ensures Rev32((c << 1) ^ 0x04C1_1DB7) == (Rev32(c) >> 1) ^ 0xEDB8_8320
  {
    RevShift(c);
    RevConstants();
    RevAdds(c << 1, 0x04C1_1DB7);
  }

  lemma RevChoice(c: bv32)
    ensures Rev32(Msb1(c)) == if c & 0x8000_0000 == 0 then Rev32(c << 1) else Rev32((c << 1) ^ 0x04C1_1DB7)
  {}

  lemma LsbChoice(c: bv32, r: bv32, s: bv32, x: bv32, m: bv32)
    requires s == r >> 1 && x == (r >> 1) ^ 0xEDB8_8320 && (c & 0x8000_0000 == 0) == (r & 1 == 0)
    requires m == if c & 0x8000_0000 == 0 then s else x
    ensures m == Lsb1(r)
  {}

  /** Reversal turns a step from the top into a step from the bottom. */
  lemma RevStep(c: bv32)
    ensures Rev32(Msb1(c)) == Lsb1(Rev32(c))
  {
    RevShift(c);
    RevSubtract(c);
    RevTop(c);
    RevChoice(c);
    LsbChoice(c, Rev32(c), Rev32(c << 1), Rev32((c << 1) ^ 0x04C1_1DB7), Rev32(Msb1(c)));
  }

  lemma RevByte(b: bv8)
    ensures Rev32((Rev8(b) as bv32) << 24) == b as bv32
  {}

  // ---------- division: most significant bit first, bytes reversed ----------

  function Top(b: bv8): bv32 { (Rev8(b) as bv32) << 24 }

  lemma RevMirrors()
    ensures Mirrors(Rev32, Msb8, Lsb8)
  {
    forall c ensures MirrorsAt(Rev32, Msb1, Lsb1, c) { RevStep(c); }
    MsbTwice();
    LsbTwice();
    MirrorsTwice(Rev32, Msb1, Lsb1, Msb2, Lsb2);
    MirrorsTwice(Rev32, Msb2, Lsb2, Msb4, Lsb4);
    MirrorsTwice(Rev32, Msb4, Lsb4, Msb8, Lsb8);
  }

  lemma MsbTwice()
    ensures Twice(Msb1, Msb2) && Twice(Msb2, Msb4) && Twice(Msb4, Msb8)
  {
    forall c ensures TwiceAt(Msb1, Msb2, c) {}
    forall c ensures TwiceAt(Msb2, Msb4, c) {}
    forall c ensures TwiceAt(Msb4, Msb8, c) {}
  }

  lemma LsbTwice()
    ensures Twice(Lsb1, Lsb2) && Twice(Lsb2, Lsb4) && Twice(Lsb4, Lsb8)
  {
    forall c ensures TwiceAt(Lsb1, Lsb2, c) {}
    forall c ensures TwiceAt(Lsb2, Lsb4, c) {}
    forall c ensures TwiceAt(Lsb4, Lsb8, c) {}
  }

  lemma RevPlaces()
    ensures Additive(Rev32, Xor) && Places(Rev32, Top, Bottom)
  {
    forall a, b ensures AddsAt(Rev32, Xor, a, b) { RevAdds(a, b); }
    forall b ensures PlacesAt(Rev32, Top, Bottom, b) { RevByte(b); }
  }

  /** The division is the reflected form, with all registers reversed. */
  lemma RevUpdate(c: bv32, r: bv32, data: seq<bv8>)
    requires Rev32(c) == r
    ensures Rev32(Update(Msb8, Xor, Top, c, data)) == Update(Lsb8, Xor, Bottom, r, data)
  {
    RevMirrors();
    RevPlaces();
    MirrorsUpdate(Rev32, Xor, Msb8, Lsb8, Top, Bottom, c, data);
  }

  // ---------- the table ----------

  function Up(c: bv32): bv32 { c << 1 }

  predicate TopClear(c: bv32) { c & 0x8000_0000 == 0 }

  const POLY: bv32 := 0x04C1_1DB7

  lemma UpAdds()
    ensures Additive(Up, Xor)
  {
    forall a, b ensures AddsAt(Up, Xor, a, b) {}
  }

  lemma TopAdds()
    ensures Tests(TopClear, Xor)
  {
    forall a, b ensures TestsAt(TopClear, Xor, a, b) {}
  }

  lemma XorAssociative(a: bv32, b: bv32, c: bv32)
    ensures Xor(Xor(a, b), c) == Xor(a, Xor(b, c))
  {}

  lemma XorAssociates()
    ensures Associates(Xor)
  {
    forall a, b, c ensures AssociatesAt(Xor, a, b, c) { XorAssociative(a, b, c); }
  }

  lemma XorBinary()
    ensures Binary(Xor)
  {
    XorAssociates();
    forall a, b ensures CommutesAt(Xor, a, b) {}
    forall a, p ensures CancelsAt(Xor, a, p) {}
  }

  lemma MsbSteps()
    ensures Steps(Msb1, Up, TopClear, Xor, POLY)
  {
    forall c ensures StepsAt(Msb1, Up, TopClear, Xor, POLY, c) {}
  }

  lemma MsbAdditive()
    ensures Additive(Msb8, Xor)
  {
    UpAdds();
    TopAdds();
    XorBinary();
    MsbSteps();
    AdditiveStep(Msb1, Up, TopClear, Xor, POLY);
    MsbTwice();
    AdditiveTwice(Msb1, Msb2, Xor);
    AdditiveTwice(Msb2, Msb4, Xor);
    AdditiveTwice(Msb4, Msb8, Xor);
  }

  lemma Msb8Low(c: bv32)
    requires c & 0xFF00_0000 == 0
    ensures Msb8(c) == c << 8
  {}

  lemma SplitRegister(c: bv32, b: bv8, x: bv8)
    requires x == b ^ ((c >> 24) as bv8)
    ensures Xor((x as bv32) << 24, c & 0x00FF_FFFF) == Xor(c, (b as bv32) << 24)
    ensures (c & 0x00FF_FFFF) << 8 == c << 8 && (c & 0x00FF_FFFF) & 0xFF00_0000 == 0
  {}

  lemma Together<R>(f: R -> R, add: (R, R) -> R, top: R, low: R, entry: R, rest: R, all: R)
    requires AddsAt(f, add, top, low) && entry == f(top) && rest == f(low) && all == add(top, low)
    ensures add(entry, rest) == f(all)
  {}

  lemma LowRound(c: bv32)
    ensures c << 8 == Msb8(c & 0x00FF_FFFF)
  {
    SplitRegister(c, 0, 0 ^ ((c >> 24) as bv8));
    Msb8Low(c & 0x00FF_FFFF);
  }

  /** One look-up does the eight steps of a byte. */
  lemma TableStep(c: bv32, b: bv8, x: bv8)
    requires x == b ^ ((c >> 24) as bv8)
    ensures |TABLE| == 32 && |TABLE[(x >> 3) as int]| == 8
    ensures Xor(TABLE[(x >> 3) as int][(x & 7) as int], c << 8) == Msb8(Xor(c, (b as bv32) << 24))
  {
    var top, low := (x as bv32) << 24, c & 0x00FF_FFFF;
    TableRight(x);
    MsbAdditive();
    assert AddsAt(Msb8, Xor, top, low);
    LowRound(c);
    SplitRegister(c, b, x);
    Together(Msb8, Xor, top, low, TABLE[(x >> 3) as int][(x & 7) as int], c << 8, Xor(c, (b as bv32) << 24));
  }

  // ---------- the code ----------

  method ReverseByte(b: bv8) returns (r: bv8)
    ensures r == Rev8(b)
  {
    NibTable(b & 15);
    NibTable(b >> 4);
    r := (NIB_REVERSE[(b & 15) as int] << 4) | NIB_REVERSE[(b >> 4) as int];
  }

  predicate RoundAt(round: bv32 -> bv32, place: bv8 -> bv32, c: bv32, b: bv8) {
    round(Xor(c, place(b))) == Msb8(Xor(c, Top(b)))
  }

  /** A byte put in place and a round make eight steps of the division. */
  ghost predicate Divides(round: bv32 -> bv32, place: bv8 -> bv32) { forall c, b :: RoundAt(round, place, c, b) }

  lemma MsbDivides()
    ensures Divides(Msb8, Top)
  {
    forall c, b ensures RoundAt(Msb8, Top, c, b) {}
  }

  method UpdateByte(crc: bv32, b: bv8, ghost round: bv32 -> bv32, ghost place: bv8 -> bv32) returns (next: bv32)
    requires Divides(round, place)
    ensures next == round(Xor(crc, place(b)))
  {
    next := Look(crc, b);
    assert RoundAt(round, place, crc, b);
  }

  method Look(crc: bv32, b: bv8) returns (next: bv32)
    ensures next == Msb8(Xor(crc, Top(b)))
  {
    var r := ReverseByte(b);
    var x := r ^ ((crc >> 24) as bv8);
    TableStep(crc, r, x);
    next := TABLE[(x >> 3) as int][(x & 7) as int] ^ (crc << 8);
  }

  /** digital_update_crc32: the division, whatever names its round and placing go by. */
  method DigitalUpdate(start: bv32, data: seq<bv8>, ghost round: bv32 -> bv32, ghost place: bv8 -> bv32)
    returns (crc: bv32)
    requires Divides(round, place)
    ensures crc == Update(round, Xor, place, start, data)
  {
    crc := start;
    var k := 0;
    assert data[..0] == [];
    while k < |data|
      invariant 0 <= k <= |data| && crc == Update(round, Xor, place, start, data[..k])
    {
      crc := UpdateByte(crc, data[k], round, place);
      UpdateNext(round, Xor, place, start, data, k);
      k := k + 1;
    }
    assert data[..k] == data;
  }

  lemma UpdateNext<R>(round: R -> R, add: (R, R) -> R, place: bv8 -> R, c: R, data: seq<bv8>, k: nat)
    requires k < |data|
    ensures Update(round, add, place, c, data[..k + 1])
         == round(add(Update(round, add, place, c, data[..k]), place(data[k])))
  {
    assert data[..k + 1][..k] == data[..k];
  }

  /** digital_crc32. */
  method DigitalCrc(data: seq<bv8>) returns (crc: bv32)
    ensures crc == Xor(Update(Msb8, Xor, Top, ONES, data), ONES)
  {
    MsbDivides();
    crc := DigitalUpdate(ONES, data, Msb8, Top);
    crc := crc ^ ONES;
  }

  /** ethernet_crc32. What rcrc held before is shifted out. */
  method EthernetCrc(data: seq<bv8>, garbage: bv32) returns (rcrc: bv32)
    ensures rcrc == Fcs(data)
  {
    var crc := DigitalCrc(data);
    EightReverse();
    rcrc := ReverseRegister(crc, garbage, 8);
    RevFcs(data, crc);
  }

  lemma Inverted<R>(rev: R -> R, add: (R, R) -> R, ones: R, d: R, e: R)
    requires AddsAt(rev, add, d, ones) && rev(ones) == ones && rev(d) == e
    ensures rev(add(d, ones)) == add(e, ones)
  {}

  lemma RevFcs(data: seq<bv8>, crc: bv32)
    requires crc == Xor(Update(Msb8, Xor, Top, ONES, data), ONES)
    ensures Rev32(crc) == Fcs(data)
  {
    var d, e := Update(Msb8, Xor, Top, ONES, data), Update(Lsb8, Xor, Bottom, ONES, data);
    RevConstants();
    RevUpdate(ONES, ONES, data);
    RevPlaces();
    assert AddsAt(Rev32, Xor, d, ONES);
    Inverted(Rev32, Xor, ONES, d, e);
  }

  /** What is left of c, and r, after n pieces went from the one into the other. */
  function Push<R>(shift: R -> R, push: (R, R) -> R, c: R, r: R, n: nat): (R, R) {
    if n == 0 then (c, r)
    else
      var (d, s) := Push(shift, push, c, r, n - 1);
      (shift(d), push(s, d))
  }

  function Shift4(c: bv32): bv32 { c >> 4 }

  function PushNibble(r: bv32, c: bv32): bv32 { (r << 4) | (RevNib((c & 15) as bv8) as bv32) }

  lemma PushRegister(c: bv32, g: bv32)
    ensures Push(Shift4, PushNibble, c, g, 8).1 == Rev32(c)
  {}

  predicate ReversesAt(n: nat, c: bv32, g: bv32) { Push(Shift4, PushNibble, c, g, n).1 == Rev32(c) }

  /** n nibbles make up the register. */
  ghost predicate Reverses(n: nat) { forall c, g :: ReversesAt(n, c, g) }

  lemma EightReverse()
    ensures Reverses(8)
  {
    forall c, g ensures ReversesAt(8, c, g) { PushRegister(c, g); }
  }

  /** The loop over the nibbles of the register. */
  method ReverseRegister(c: bv32, garbage: bv32, n: nat) returns (r: bv32)
    requires Reverses(n)
    ensures r == Rev32(c)
  {
    var crc := c;
    r := garbage;
    var i := 0;
    while i < n
      invariant 0 <= i <= n && (crc, r) == Push(Shift4, PushNibble, c, garbage, i)
    {
      crc, r := TakeNibble(crc, r);
      i := i + 1;
    }
    assert ReversesAt(n, c, garbage);
  }

  method TakeNibble(crc: bv32, r: bv32) returns (d: bv32, s: bv32)
    ensures d == Shift4(crc) && s == PushNibble(r, crc)
  {
    var nib := (crc & 15) as bv8;
    NibTable(nib);
    d, s := crc >> 4, (r << 4) | (NIB_REVERSE[nib as int] as bv32);
  }
}
