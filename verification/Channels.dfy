/** How `bmp_load` takes a colour channel out of a pixel: a mask, a shift that brings its highest
    bit to the top of a byte, and copies of the bits below that (`shiftsigned`). */
module Channels {
  import opened Basics
  import opened Bytes
  import opened Powers

  /** A 32-bit number as a signed one. */
  function Signed(v: nat): int {
    if v < INT_LIMIT then v else v - 0x1_0000_0000
  }

  /** Bitwise and. */
  function And(v: nat, mask: nat): (r: nat)
    ensures r <= mask
    decreases mask
  {
    if mask == 0 then 0 else 2 * And(v / 2, mask / 2) + (v % 2) * (mask % 2)
  }

  /** The place of the highest bit, or -1 if there is none. */
  function HighBit(z: nat): (n: int)
    ensures n >= -1 && (z > 0 ==> n >= 0)
  {
    if z == 0 then -1 else HighBit(z / 2) + 1
  }

  function BitCount(z: nat): (n: nat)
    ensures z > 0 ==> n > 0
  {
    if z == 0 then 0 else z % 2 + BitCount(z / 2)
  }

  /** The highest bit at place 7, for a mask whose highest bit is at `shift + 7`. Shifting to the
      right rounds down. */
  function Shifted(v: int, shift: int): int {
    if shift < 0 then v * Pow2(-shift) else v / Pow2(shift)
  }

  /** The copies: `t` moved down by `z` and by every further multiple of `bits` below eight. */
  function Echoes(t: int, z: nat, bits: nat): int
    requires bits > 0
    decreases 8 - z
  {
    if z >= 8 then 0 else t / Pow2(z) + Echoes(t, z + bits, bits)
  }

  function ShiftSigned(v: int, shift: int, bits: nat): byte
    requires bits > 0
  {
    (Shifted(v, shift) + Echoes(Shifted(v, shift), bits, bits)) % 256
  }

  /** A channel of pixel `v`; `bits` is how far apart the copies are. */
  function Channel(v: nat, mask: nat, bits: nat): byte
    requires bits > 0
  {
    ShiftSigned(Signed(And(v, mask)), HighBit(mask) - 7, bits)
  }

  method ComputeShiftSigned(v: int, shift: int, bits: nat) returns (b: byte)
    requires bits > 0
    ensures b == ShiftSigned(v, shift, bits)
  {
    hide Pow2;
    var w := Shifted(v, shift);
    var result, z := w, bits;
    while z < 8
      invariant result + Echoes(w, z, bits) == w + Echoes(w, bits, bits)
      decreases 8 - z
    {
      result := result + w / Pow2(z);
      z := z + bits;
    }
    b := result % 256;
  }

  /** The binary search for the highest bit. */
  method ComputeHighBit(z0: nat) returns (n: int)
    requires z0 < 0x1_0000_0000
    ensures n == HighBit(z0)
  {
    hide HighBit, Pow2;
    NoHighBit();
    Pow2Of16();
    PowerOfNone();
    var z := z0;
    n := 0;
    if z == 0 {
      return -1;
    }
    if z >= 0x1_0000 {
      HighBitDrops(z, 16);
      n, z := n + 16, z / 0x1_0000;
    }
    assert n + HighBit(z) == HighBit(z0);
    if z >= 0x100 {
      HighBitDrops(z, 8);
      n, z := n + 8, z / 0x100;
    }
    assert n + HighBit(z) == HighBit(z0);
    if z >= 0x10 {
      HighBitDrops(z, 4);
      n, z := n + 4, z / 0x10;
    }
    assert n + HighBit(z) == HighBit(z0);
    if z >= 4 {
      HighBitDrops(z, 2);
      n, z := n + 2, z / 4;
    }
    assert n + HighBit(z) == HighBit(z0);
    if z >= 2 {
      HighBitDrops(z, 1);
      n, z := n + 1, z / 2;
    }
  }

  lemma NoHighBit()
    ensures HighBit(0) == -1 && HighBit(1) == 0
  {
  }

  lemma {:induction false} HighBitDrops(z: nat, k: nat)
    requires z >= Pow2(k)
    ensures HighBit(z) == HighBit(z / Pow2(k)) + k
    decreases k
  {
    hide Pow2, HighBit;
    if k == 0 {
      PowerOfNone();
    } else {
      PowerDoubles(k - 1);
      HigherBit(z);
      HalfReaches(z, Pow2(k - 1));
      HighBitDrops(z / 2, k - 1);
      HalvedQuotient(z, Pow2(k - 1));
    }
  }

  lemma HigherBit(z: nat)
    requires z > 0
    ensures HighBit(z) == HighBit(z / 2) + 1
  {
  }

  lemma HalfReaches(z: nat, d: nat)
    requires z >= 2 * d
    ensures z / 2 >= d
  {
  }

  lemma PowerOfNone()
    ensures Pow2(0) == 1 && Pow2(1) == 2 && Pow2(2) == 4
  {
    assert Pow2(1) == 2;
  }

  lemma PowerDoubles(k: nat)
    ensures Pow2(k + 1) == 2 * Pow2(k)
  {
  }

  lemma HalvedQuotient(z: nat, d: nat)
    requires d > 0
    ensures z / 2 / d == z / (2 * d)
  {
    var q, r := z / 2 / d, z / 2 % d;
    assert z == q * (2 * d) + (2 * r + z % 2);
    DivModUnique(z, 2 * d, q, 2 * r + z % 2);
  }

  // Full channels

  /** A mask of `b` bits next to each other, the highest at place `h`. */
  function Ones(h: nat, b: nat): nat
    requires 1 <= b <= h + 1
  {
    (Pow2(b) - 1) * Pow2(h + 1 - b)
  }

  lemma {:induction false} AndOwn(mask: nat)
    ensures And(mask, mask) == mask
    decreases mask
  {
    if mask > 0 {
      AndOwn(mask / 2);
      OwnBit(mask % 2);
    }
  }

  lemma OwnBit(d: nat)
    requires d <= 1
    ensures d * d == d
  {
  }

  lemma {:induction false} HighBitOfOnes(h: nat, b: nat)
    requires 1 <= b <= h + 1
    ensures HighBit(Ones(h, b)) == h && Pow2(h) <= Ones(h, b) < Pow2(h + 1)
    decreases h
  {
    hide Ones, HighBit, Pow2;
    PowerDoubles(h);
    if b <= h {
      HighBitOfOnes(h - 1, b);
      OnesDouble(h, b);
      HigherBit(Ones(h, b));
    } else if h > 0 {
      HighBitOfOnes(h - 1, b - 1);
      OnesGrow(h);
      HigherBit(Ones(h, b));
    } else {
      OneBit();
      NoHighBit();
      PowerOfNone();
    }
    if h > 0 {
      PowerDoubles(h - 1);
    }
  }

  lemma {:induction false} BitCountOfOnes(h: nat, b: nat)
    requires 1 <= b <= h + 1
    ensures BitCount(Ones(h, b)) == b
    decreases h
  {
    hide Ones;
    if b <= h {
      BitCountOfOnes(h - 1, b);
      OnesDouble(h, b);
      CountDoubled(Ones(h - 1, b));
    } else if h > 0 {
      BitCountOfOnes(h - 1, b - 1);
      OnesGrow(h);
      CountDoubled(Ones(h - 1, h));
    } else {
      OneBit();
    }
  }

  lemma OneBit()
    ensures Ones(0, 1) == 1 && BitCount(1) == 1
  {
  }

  lemma CountDoubled(z: nat)
    ensures BitCount(2 * z) == BitCount(z) && BitCount(2 * z + 1) == BitCount(z) + 1
  {
  }

  lemma OnesDouble(h: nat, b: nat)
    requires 1 <= b <= h
    ensures Ones(h, b) == 2 * Ones(h - 1, b)
  {
    MulDouble(Pow2(b) - 1, Pow2(h - b));
  }

  lemma OnesGrow(h: nat)
    requires h > 0
    ensures Ones(h, h + 1) == 2 * Ones(h - 1, h) + 1
  {
  }

  lemma OnesAre(h: nat, b: nat)
    requires 1 <= b <= h + 1
    ensures Ones(h, b) == Pow2(h + 1) - Pow2(h + 1 - b)
  {
    hide Pow2;
    Pow2Adds(b, h + 1 - b);
    Distributes(Pow2(b), -1, Pow2(h + 1 - b));
  }

  /** The lowest bit of a full channel at the top of a byte. */
  function Lowest(b: nat): nat {
    if b < 8 then Pow2(8 - b) else 1
  }

  /** Moved to the top of a byte, a full channel has the top `b` bits; below zero if the
      program takes it for a negative number. */
  lemma FullAtTop(h: nat, b: nat)
    requires 1 <= b <= h + 1 <= 32
    ensures Shifted(Signed(Ones(h, b)), h - 7) == (if h < 31 then 256 else 0) - Lowest(b)
  {
    hide Pow2, Ones, Signed;
    SignedOnes(h, b);
    PowersUpTo();
    if h < 7 {
      LowAtTop(h, b);
    } else {
      HighAtTop(h, b);
    }
  }

  lemma LowAtTop(h: nat, b: nat)
    requires 1 <= b <= h + 1 <= 7
    ensures Ones(h, b) * Pow2(7 - h) == 256 - Lowest(b)
  {
    hide Pow2, Ones;
    OnesAre(h, b);
    PowersUpTo();
    Pow2Adds(h + 1 - b, 7 - h);
    Pow2Adds(h + 1, 7 - h);
    Distributes(Ones(h, b), Pow2(h + 1 - b), Pow2(7 - h));
  }

  lemma HighAtTop(h: nat, b: nat)
    requires 1 <= b <= h + 1 && h >= 7
    ensures Ones(h, b) / Pow2(h - 7) == 256 - Lowest(b)
    ensures h == 31 ==> (Ones(h, b) - Pow2(32)) / Pow2(h - 7) == 0 - Lowest(b)
  {
    hide Pow2, Ones, Lowest;
    var rest := OnesInParts(h, b);
    PowersUpTo();
    Pow2Adds(8, h - 7);
    LowestAre(b);
    Rounded(Lowest(b), Pow2(h - 7), rest);
  }

  lemma OnesInParts(h: nat, b: nat) returns (rest: nat)
    requires 1 <= b <= h + 1 && h >= 7
    ensures rest < Pow2(h - 7) && Ones(h, b) == 256 * Pow2(h - 7) - Lowest(b) * Pow2(h - 7) + rest
  {
    hide Pow2, Ones;
    OnesAre(h, b);
    PowersUpTo();
    Pow2Adds(8, h - 7);
    if b < 8 {
      Pow2Adds(8 - b, h - 7);
      rest := 0;
    } else {
      Pow2Grows(h + 1 - b, h - 7);
      rest := Pow2(h - 7) - Pow2(h + 1 - b);
    }
  }

  lemma PowersUpTo()
    ensures Pow2(8) == 256 && Pow2(32) == 0x1_0000_0000 && Pow2(31) == INT_LIMIT
  {
    hide Pow2;
    Pow2Of16();
    Pow2Adds(16, 16);
    Pow2Adds(16, 15);
  }

  lemma SignedOnes(h: nat, b: nat)
    requires 1 <= b <= h + 1 <= 32
    ensures Signed(Ones(h, b)) == if h < 31 then Ones(h, b) else Ones(h, b) - Pow2(32)
  {
    hide Pow2, Ones;
    PowersUpTo();
    HighBitOfOnes(h, b);
    if h < 31 {
      Pow2Grows(h + 1, 31);
    }
  }

  lemma Rounded(low: nat, d: nat, rest: nat)
    requires rest < d && low <= 256
    ensures (256 * d - low * d + rest) / d == 256 - low && (rest - low * d) / d == 0 - low
  {
    var up: int, down: int := 256 - low, 0 - low;
    Distributes(up, low, d);
    Distributes(down, low, d);
    FloorUnique(256 * d - low * d + rest, d, up, rest);
    FloorUnique(rest - low * d, d, down, rest);
  }

  lemma FloorUnique(k: int, d: nat, q: int, r: nat)
    requires r < d && k == q * d + r
    ensures k / d == q
  {
    MulBounds(k / d - q, d);
    assert (k / d - q) * d == r - k % d;
  }

  function EchoSum(t: int, c: nat): int
    requires c > 0
  {
    match c
    case 1 => t / 2 + t / 4 + t / 8 + t / 16 + t / 32 + t / 64 + t / 128
    case 2 => t / 4 + t / 16 + t / 64
    case 3 => t / 8 + t / 64
    case 4 => t / 16
    case 5 => t / 32
    case 6 => t / 64
    case 7 => t / 128
    case _ => 0
  }

  lemma EchoTable(t: int, c: nat)
    requires c > 0
    ensures Echoes(t, c, c) == EchoSum(t, c)
  {
    hide Pow2, Echoes;
    EchoPowers();
    forall z: nat {:trigger Echoes(t, z, c)} | z < 8
      ensures Echoes(t, z, c) == t / Pow2(z) + Echoes(t, z + c, c)
    {
      NextEcho(t, z, c);
    }
    forall z: nat {:trigger Echoes(t, z, c)} | z >= 8
      ensures Echoes(t, z, c) == 0
    {
      NoEcho(t, z, c);
    }
  }

  lemma EchoPowers()
    ensures Pow2(1) == 2 && Pow2(2) == 4 && Pow2(3) == 8 && Pow2(4) == 16
    ensures Pow2(5) == 32 && Pow2(6) == 64 && Pow2(7) == 128
  {
    assert Pow2(3) == 8;
    assert Pow2(5) == 32;
  }

  lemma NextEcho(t: int, z: nat, c: nat)
    requires z < 8 && c > 0
    ensures Echoes(t, z, c) == t / Pow2(z) + Echoes(t, z + c, c)
  {
  }

  lemma NoEcho(t: int, z: nat, c: nat)
    requires z >= 8 && c > 0
    ensures Echoes(t, z, c) == 0
  {
  }

  /** A full channel becomes 255 if and only if the copies are as far apart as it has bits, or
      neither leaves room for copies; at the sign bit only in the second case. */
  lemma FullIff(h: nat, b: nat, c: nat)
    requires 1 <= b <= h + 1 <= 32 && c > 0
    ensures var full := Ones(h, b);
            Channel(full, full, c) == 255 <==> (h < 31 && b == c) || (b >= 8 && c >= 8)
  {
    hide Ones, And, HighBit, Signed, Shifted, Echoes, EchoSum, Lowest, Pow2;
    var full := Ones(h, b);
    AndOwn(full);
    HighBitOfOnes(h, b);
    FullAtTop(h, b);
    EchoTable(Shifted(Signed(full), h - 7), c);
    LowestAre(b);
    if h < 31 {
      PositiveSum(Lowest(b), c);
    } else {
      NegativeSum(Lowest(b), c);
    }
  }

  /** The number of bits that a full channel with this lowest bit has, up to eight. */
  function BitsOf(low: nat): nat {
    if low == 128 then 1 else if low == 64 then 2 else if low == 32 then 3 else if low == 16 then 4
    else if low == 8 then 5 else if low == 4 then 6 else if low == 2 then 7 else 8
  }

  lemma PositiveSum(low: nat, c: nat)
    requires low in {1, 2, 4, 8, 16, 32, 64, 128} && c > 0
    ensures (256 - low + EchoSum(256 - low, c)) % 256 == 255 <==> if low == 1 then c >= 8 else c == BitsOf(low)
  {
  }

  lemma NegativeSum(low: nat, c: nat)
    requires low in {1, 2, 4, 8, 16, 32, 64, 128} && c > 0
    ensures (0 - low + EchoSum(0 - low, c)) % 256 == 255 <==> low == 1 && c >= 8
  {
    EchoBelow(0 - low, c);
    hide EchoSum;
  }

  /** Copies of a negative number are negative, and do not add up to a byte. */
  lemma EchoBelow(t: int, c: nat)
    requires -128 <= t <= -1 && c > 0
    ensures if c >= 8 then EchoSum(t, c) == 0 else -128 <= EchoSum(t, c) <= -1
  {
  }

  lemma LowestAre(b: nat)
    requires b >= 1
    ensures Lowest(b) in {1, 2, 4, 8, 16, 32, 64, 128}
    ensures Lowest(b) == 1 <==> b >= 8
    ensures b < 8 ==> BitsOf(Lowest(b)) == b
  {
    hide Pow2;
    EchoPowers();
  }

  /** The full green of a pixel of five, six and five bits, of which the program moves the copies
      by the five of red. */
  lemma SixBitGreen()
    ensures Ones(15, 5) == 0xf800 && Ones(10, 6) == 0x7e0
    ensures Channel(0x7e0, 0x7e0, BitCount(0xf800)) == 3
  {
    hide Ones, Signed, Shifted, And, HighBit, Echoes, EchoSum, BitCount;
    GreenMask();
    BitCountOfOnes(15, 5);
    AndOwn(0x7e0);
    HighBitOfOnes(10, 6);
    FullAtTop(10, 6);
    EchoTable(252, 5);
    FiveDown();
  }

  lemma FiveDown()
    ensures EchoSum(252, 5) == 7
  {
  }

  lemma GreenMask()
    ensures Ones(15, 5) == 0xf800 && Ones(10, 6) == 0x7e0 && Lowest(6) == 4
  {
    hide Pow2;
    EchoPowers();
    PowersUpTo();
    Pow2Adds(5, 6);
  }

  // Channels of five bits and of eight

  lemma {:induction false} AndLow(v: nat, b: nat)
    requires b >= 1
    ensures And(v, Ones(b - 1, b)) == v % Pow2(b)
    decreases b
  {
    hide Ones, And, Pow2;
    if b == 1 {
      OneBit();
      LastBit(v);
      PowerOfNone();
    } else {
      AndLow(v / 2, b - 1);
      OnesGrow(b - 1);
      NextBit(v, Ones(b - 1, b));
      HalfMod(v, b);
    }
  }

  lemma NextBit(v: nat, mask: nat)
    requires mask > 0
    ensures And(v, mask) == 2 * And(v / 2, mask / 2) + (v % 2) * (mask % 2)
  {
  }

  lemma NextClear(v: nat, mask: nat)
    requires mask > 0
    ensures And(v, 2 * mask) == 2 * And(v / 2, mask)
  {
    hide And;
    NextBit(v, 2 * mask);
  }

  lemma LastBit(v: nat)
    ensures And(v, 1) == v % 2
  {
  }

  /** Masking keeps the bits in their places. */
  lemma {:induction false} AndOnes(v: nat, h: nat, b: nat)
    requires 1 <= b <= h + 1
    ensures And(v, Ones(h, b)) == Bits(v, h + 1 - b, b) * Pow2(h + 1 - b)
    decreases h
  {
    hide Ones, And, Pow2, Bits;
    if h + 1 == b {
      AndLow(v, b);
      LowestBits(v, b);
      PowerOfNone();
    } else {
      AndOnes(v / 2, h - 1, b);
      OnesDouble(h, b);
      HighBitOfOnes(h - 1, b);
      PowerIsSome(h - 1);
      NextClear(v, Ones(h - 1, b));
      PowerDoubles(h - b);
      HalfBits(v, h + 1 - b, b);
      MulDouble(Bits(v, h + 1 - b, b), Pow2(h - b));
    }
  }

  /** The `b` bits of `v` from place `k` on. */
  function Bits(v: nat, k: nat, b: nat): nat {
    v / Pow2(k) % Pow2(b)
  }

  lemma LowestBits(v: nat, b: nat)
    ensures Bits(v, 0, b) == v % Pow2(b)
  {
  }

  lemma PowerIsSome(h: nat)
    ensures Pow2(h) >= 1
  {
  }

  lemma HalfBits(v: nat, k: nat, b: nat)
    requires k >= 1
    ensures Bits(v, k, b) == Bits(v / 2, k - 1, b)
  {
    hide Pow2;
    PowerDoubles(k - 1);
    HalvedQuotient(v, Pow2(k - 1));
  }

  /** Five bits become eight by repeating their top three below. */
  lemma FiveBits(v: nat, h: nat)
    requires h == 4 || h == 9 || h == 14
    ensures var q := Bits(v, h - 4, 5); q < 32 && Channel(v, Ones(h, 5), 5) == 8 * q + q / 4
  {
    hide Ones, And, HighBit, Shifted, Signed, EchoSum, Channel, Pow2, Bits;
    var q := Bits(v, h - 4, 5);
    BitsBelow(v, h - 4, 5);
    EchoPowers();
    AndOnes(v, h, 5);
    HighBitOfOnes(h, 5);
    FiveAtTop(q, h);
    ChannelIs(v, Ones(h, 5), 5, 8 * q);
    FiveSum(q);
  }

  lemma ChannelIs(v: nat, mask: nat, c: nat, t: int)
    requires c > 0 && Shifted(Signed(And(v, mask)), HighBit(mask) - 7) == t
    ensures Channel(v, mask, c) == (t + EchoSum(t, c)) % 256
  {
    hide And, HighBit, Shifted, Signed, Echoes, EchoSum;
    EchoTable(t, c);
  }

  lemma FiveSum(q: nat)
    requires q < 32
    ensures (8 * q + EchoSum(8 * q, 5)) % 256 == 8 * q + q / 4
  {
  }

  lemma BitsBelow(v: nat, k: nat, b: nat)
    ensures Bits(v, k, b) < Pow2(b)
  {
  }

  lemma PowersBelow()
    ensures Pow2(0) == 1 && Pow2(10) == 1024 && Pow2(16) == 0x1_0000 && Pow2(24) == 0x100_0000 && Pow2(8) == 256
  {
    hide Pow2;
    PowerOfNone();
    Pow2Of16();
    Pow2Adds(8, 2);
    Pow2Adds(16, 8);
  }

  lemma FiveAtTop(q: nat, h: nat)
    requires (h == 4 || h == 9 || h == 14) && q < 32
    ensures Shifted(Signed(q * Pow2(h - 4)), h - 7) == 8 * q
  {
    hide Pow2;
    EchoPowers();
    PowersBelow();
  }

  /** Eight bits are taken as they are, also at the sign bit. */
  lemma EightBits(v: nat, h: nat)
    requires h == 7 || h == 15 || h == 23 || h == 31
    ensures var q := Bits(v, h - 7, 8); q < 256 && Channel(v, Ones(h, 8), 8) == q
  {
    hide Ones, And, HighBit, Shifted, Signed, Channel, Pow2, Bits;
    var q := Bits(v, h - 7, 8);
    BitsBelow(v, h - 7, 8);
    AndOnes(v, h, 8);
    HighBitOfOnes(h, 8);
    PowersBelow();
    EightAtTop(q, h);
    ChannelIs(v, Ones(h, 8), 8, Shifted(Signed(q * Pow2(h - 7)), h - 7));
  }

  lemma EightAtTop(q: nat, h: nat)
    requires (h == 7 || h == 15 || h == 23 || h == 31) && q < 256
    ensures Shifted(Signed(q * Pow2(h - 7)), h - 7) % 256 == q
  {
    hide Pow2;
    PowersBelow();
  }
}
