/**
 Physical page frames as bytes, and the 32-bit little-endian words that page tables are made of.
 */
module PageWords {
  import opened Division

  const PAGE := 4096
  const WORDS := 1024
  const TWO32 := 0x1_0000_0000

  // One page frame: 4096 bytes.
  type Frame = seq<int>

  predicate IsFrame(f: Frame) { |f| == PAGE }

  /** First page boundary at or above x, in pages. */
  function PagesUp(x: int): (p: int)
    ensures (p - 1) * 4096 < x <= p * 4096
  {
    (x + PAGE - 1) / PAGE
  }

  function Splice(frame: Frame, off: int, bytes: seq<int>): (r: Frame)
    requires IsFrame(frame) && 0 <= off && off + |bytes| <= PAGE
    ensures IsFrame(r)
  {
    frame[..off] + bytes + frame[off + |bytes|..]
  }

  function ZeroFrame(): (r: Frame)
    ensures IsFrame(r) && forall i :: 0 <= i < PAGE ==> r[i] == 0
  {
    seq(PAGE, _ => 0)
  }

  function Word(f: Frame, i: int): int
    requires IsFrame(f) && 0 <= i < WORDS
  {
    f[4 * i] + 0x100 * f[4 * i + 1] + 0x1_0000 * f[4 * i + 2] + 0x100_0000 * f[4 * i + 3]
  }

  function PutWord(f: Frame, i: int, w: int): (r: Frame)
    requires IsFrame(f) && 0 <= i < WORDS
    ensures IsFrame(r)
  {
    f[4 * i := w % 0x100][4 * i + 1 := w / 0x100 % 0x100][4 * i + 2 := w / 0x1_0000 % 0x100]
     [4 * i + 3 := w / 0x100_0000 % 0x100]
  }

  lemma Split256(w: int)
    requires 0 <= w < TWO32
    ensures w % 0x100 + 0x100 * (w / 0x100 % 0x100) + 0x1_0000 * (w / 0x1_0000 % 0x100)
            + 0x100_0000 * (w / 0x100_0000 % 0x100) == w
  {
    var a := w / 0x100;
    var b := a / 0x100;
    assert b == w / 0x1_0000;
    var c := b / 0x100;
    assert c == w / 0x100_0000 && c % 0x100 == c;
    assert w == 0x100 * a + w % 0x100 && a == 0x100 * b + a % 0x100 && b == 0x100 * c + b % 0x100;
  }

  /** A word reads back as written, its bytes stand lowest first, and no other byte changes. */
  lemma PutGet(f: Frame, i: int, w: int, j: int)
    requires IsFrame(f) && 0 <= i < WORDS && 0 <= j < WORDS && 0 <= w < TWO32
    ensures Word(PutWord(f, i, w), j) == if i == j then w else Word(f, j)
    ensures var r := PutWord(f, i, w);
            && r[4 * i] == w % 0x100 && r[4 * i + 1] == w / 0x100 % 0x100
            && r[4 * i + 2] == w / 0x1_0000 % 0x100 && r[4 * i + 3] == w / 0x100_0000
            && r[..4 * i] == f[..4 * i] && r[4 * i + 4..] == f[4 * i + 4..]
  {
    Split256(w);
  }

  lemma ZeroWord(i: int)
    requires 0 <= i < WORDS
    ensures Word(ZeroFrame(), i) == 0
  {}

  /** A page-table entry: frame number in the upper 20 bits, flags in the lower 12. */
  function Entry(frame: int, flags: int): int { frame * PAGE + flags }

  /** Bit 0: present. Bit 2: user code may use the page. */
  predicate UserPresent(e: int) { e % 2 == 1 && e / 4 % 2 == 1 }

  /** The lowest three of twelve flag bits, with bits 0 and 2 set. */
  function SetLow(r: int): int {
    var with0 := if r % 2 == 0 then r + 1 else r;
    if with0 < 4 then with0 + 4 else with0
  }

  function UserPresentFlags(mask: int): int {
    var low := mask % PAGE;
    low / 8 * 8 + SetLow(low % 8)
  }

  lemma UserPresentFlagsSet(mask: int)
    ensures 0 < UserPresentFlags(mask) < PAGE && UserPresent(UserPresentFlags(mask))
  {
    var q, s := mask % PAGE / 8, SetLow(mask % PAGE % 8);
    assert s == 5 || s == 7;
    Parts(4 * q, s, 2);
    Parts(2 * q, s, 4);
    Parts(q, s / 4, 2);
  }

  lemma EntryParts(frame: int, flags: int)
    requires 0 <= frame < 0x10_0000 && 0 < flags < PAGE && UserPresent(flags)
    ensures Entry(frame, flags) / PAGE == frame && 0 < Entry(frame, flags) < TWO32
    ensures UserPresent(Entry(frame, flags)) && Entry(frame, flags) % PAGE == flags
  {
    Parts(frame, flags, PAGE);
    Parts(2048 * frame, flags, 2);
    Parts(1024 * frame, flags, 4);
    Parts(512 * frame, flags / 4, 2);
  }

  // ---------- entries bit by bit ----------

  predicate Bit(x: int, b: nat)
    decreases b
  {
    if b == 0 then x % 2 == 1 else Bit(x / 2, b - 1)
  }

  function Pow2(n: nat): int { if n == 0 then 1 else 2 * Pow2(n - 1) }

  /** Numbers that differ by a multiple of 2^n have the same n lowest bits. */
  lemma {:induction false} SameBits(x: int, y: int, h: int, n: nat, b: nat)
    requires x == y + Pow2(n) * h && b < n
    ensures Bit(x, b) == Bit(y, b)
    decreases n
  {
    var t := Pow2(n - 1) * h;
    assert Pow2(n) * h == 2 * t by { assert Pow2(n) == 2 * Pow2(n - 1); }
    if b > 0 { SameBits(x / 2, y / 2, h, n - 1, b - 1); }
  }

  lemma HigherBits(x: int, b: nat)
    requires b >= 3
    ensures Bit(x, b) == Bit(x / 8, b - 3)
  {
    assert x / 2 / 2 / 2 == x / 8;
    assert Bit(x, b) == Bit(x / 2, b - 1) == Bit(x / 2 / 2, b - 2) == Bit(x / 2 / 2 / 2, b - 3);
  }

  lemma ThreeBits(x: int, q: int, r: int)
    requires x == 8 * q + r && 0 <= r < 8
    ensures Bit(x, 0) == (r % 2 == 1) && Bit(x, 1) == (r / 2 % 2 == 1) && Bit(x, 2) == (r >= 4)
  {
    assert x / 2 == 4 * q + r / 2;
    assert Bit(x, 1) == Bit(x / 2, 0);
    assert x / 2 / 2 == 2 * q + r / 4;
    assert Bit(x, 2) == Bit(x / 2, 1) == Bit(x / 2 / 2, 0);
  }

  lemma SetLowBits(r: int)
    requires 0 <= r < 8
    ensures 4 <= SetLow(r) < 8 && SetLow(r) % 2 == 1 && SetLow(r) / 2 % 2 == r / 2 % 2
  {}

  lemma LowBits(x: int, y: int, q: int, r: int, s: int)
    requires x == 8 * q + r && y == 8 * q + s && 0 <= r < 8 && s == SetLow(r)
    ensures Bit(y, 0) && Bit(y, 1) == Bit(x, 1) && Bit(y, 2)
  {
    SetLowBits(r);
    ThreeBits(x, q, r);
    ThreeBits(y, q, s);
  }

  lemma MaskBits(x: int, y: int, q: int, r: int, s: int, b: nat)
    requires x == 8 * q + r && y == 8 * q + s && 0 <= r < 8 && s == SetLow(r)
    ensures Bit(y, b) == (b == 0 || b == 2 || Bit(x, b))
  {
    SetLowBits(r);
    if b < 3 {
      LowBits(x, y, q, r, s);
    } else {
      assert x / 8 == q && y / 8 == q;
      HigherBits(x, b);
      HigherBits(y, b);
    }
  }

  /** The flags of a new entry: bits 0 and 2 are set, and every other bit is the mask's. */
  lemma FlagBits(frame: int, mask: int, b: nat)
    requires b < 12
    ensures Bit(Entry(frame, UserPresentFlags(mask)), b) == (b == 0 || b == 2 || Bit(mask, b))
  {
    var low, flags := mask % PAGE, UserPresentFlags(mask);
    TwelveBits();
    SameBits(mask, low, mask / PAGE, 12, b);
    SameBits(Entry(frame, flags), flags, frame, 12, b);
    MaskBits(low, flags, low / 8, low % 8, SetLow(low % 8), b);
  }

  lemma TwelveBits()
    ensures Pow2(12) == 4096
  {
    assert Pow2(4) == 16;
    assert Pow2(8) == 256;
  }

  /** A page that is asked for writable is present, writable and the user's, and nothing else. */
  lemma WritableFlags()
    ensures UserPresentFlags(6) == 7
  {}

  lemma Parts(a: int, b: int, m: int)
    requires m > 0
    ensures (a * m + b) / m == a + b / m && (a * m + b) % m == b % m
  {
    var q, r := b / m, b % m;
    Quotient(a + q, r, m, a * m + b);
  }
}
