/** What CRC-32 is known by: the remainder of every message followed by its own checksum, and
    the checksum of the nine digits. */
module CrcResidue {
  import opened Remainders
  import opened WordReversal
  import opened Crc32

  /** The bits of a word, lowest first. */
  function WordBits(c: word): (bits: seq<bool>)
    ensures |bits| == 32
  {
    seq(32, i requires 0 <= i < 32 => BitAt(c, i))
  }

  function Ones(n: nat): seq<bool> {
    seq(n, _ => true)
  }

  lemma NotIsSum(c: word)
    ensures !c == Sum(c, 0xFFFFFFFF)
  {
  }

  /** `v` has its lowest `n` bits. */
  predicate Filled(v: word, n: nat)
    decreases n
  {
    n == 0 || (Odd(v) && Filled(Half(v), n - 1))
  }

  lemma {:induction false} FilledAt(v: word, i: nat, n: nat)
    requires i < n && Filled(v, n)
    ensures BitAt(v, i)
    decreases i
  {
    hide Odd, Half;
    if i > 0 {
      FilledAt(Half(v), i - 1, n - 1);
    }
  }

  lemma AllFilled()
    ensures Filled(0xFFFFFFFF, 32)
  {
    assert Filled(0xFF, 8);
    assert Filled(0xFFFF, 16);
    assert Filled(0xFFFFFF, 24);
  }

  lemma ComplementBit(c: word, i: nat)
    requires i < 32
    ensures BitAt(!c, i) == !BitAt(c, i)
  {
    hide BitAt, Sum, Filled;
    NotIsSum(c);
    BitOfSum(c, 0xFFFFFFFF, i);
    AllFilled();
    FilledAt(0xFFFFFFFF, i, 32);
  }

  lemma {:induction false} HalfTimesAdds(c: word, m: nat, n: nat)
    ensures HalfTimes(c, m + n) == HalfTimes(HalfTimes(c, m), n)
    decreases m
  {
    hide Half;
    if m > 0 {
      HalfTimesAdds(Half(c), m - 1, n);
    }
  }

  lemma AllHalved(c: word)
    ensures HalfTimes(c, 32) == 0
  {
    hide HalfTimes;
    HalfTimesAdds(c, 16, 16);
    HalfTimesAdds(c, 8, 8);
    HalfEight(c);
    var d := HalfTimes(c, 16);
    HalfTimesAdds(d, 8, 8);
    HalfEight(c >> 8);
    HalfEight(d);
    HalfEight(d >> 8);
    AllShifted(c);
  }

  lemma AllShifted(c: word)
    ensures c >> 8 >> 8 >> 8 >> 8 == 0
  {
  }

  // Eight bits at a time

  function TakeBits(c: word, b0: bool, b1: bool, b2: bool, b3: bool): word {
    Take(Take(Take(Take(c, b0), b1), b2), b3)
  }

  function TakeByte8(c: word, b: bv8): word {
    TakeBits(TakeBits(c, b & 1 != 0, b & 2 != 0, b & 4 != 0, b & 8 != 0), b & 16 != 0, b & 32 != 0, b & 64 != 0,
             b & 128 != 0)
  }

  lemma TakesByte(c: word, b: bv8)
    ensures Divide(c, ByteBits(b)) == TakeByte8(c, b)
  {
    hide Take;
    var s := ByteBits(b);
    assert s == s[..4] + s[4..];
    DivideAppends(c, s[..4], s[4..]);
    FourTaken(c, s[..4]);
    FourTaken(Divide(c, s[..4]), s[4..]);
  }

  lemma FourTaken(c: word, s: seq<bool>)
    requires |s| == 4
    ensures Divide(c, s) == TakeBits(c, s[0], s[1], s[2], s[3])
  {
    hide Take;
    assert Divide(Take(c, s[0]), s[1..]) == Divide(Take(Take(c, s[0]), s[1]), s[1..][1..]);
    assert s[1..][1..] == [s[2], s[3]];
    TwoTaken(Take(Take(c, s[0]), s[1]), s[2], s[3]);
  }

  lemma TwoTaken(c: word, x: bool, y: bool)
    ensures Divide(c, [x, y]) == Take(Take(c, x), y)
  {
    hide Take;
    assert [x, y][1..] == [y];
    assert Divide(Take(c, x), [y]) == Take(Take(c, x), y);
  }

  /** The remainders after each of eight bits. */
  lemma Steps(b: bv8, c0: word, c1: word, c2: word, c3: word, c4: word, c5: word, c6: word, c7: word, c8: word)
    requires Take(c0, b & 1 != 0) == c1 && Take(c1, b & 2 != 0) == c2
    requires Take(c2, b & 4 != 0) == c3 && Take(c3, b & 8 != 0) == c4
    requires Take(c4, b & 16 != 0) == c5 && Take(c5, b & 32 != 0) == c6
    requires Take(c6, b & 64 != 0) == c7 && Take(c7, b & 128 != 0) == c8
    ensures TakeByte8(c0, b) == c8
  {
    hide Take;
  }

  lemma OneMoreByte(c: word, data: seq<bv8>, b: bv8)
    ensures Divide(c, Bits(data + [b])) == TakeByte8(Divide(c, Bits(data)), b)
  {
    hide Divide, Bits, TakeByte8;
    TakeByte(c, data, b);
    TakesByte(Divide(c, Bits(data)), b);
  }

  lemma OnesStep1()
    ensures TakeByte8(0x00000000, 0xff) == 0x2d02ef8d
  {
    hide TakeByte8;
    Steps(0xff, 0x00000000, 0xedb88320, 0x9b64c2b0, 0xa00ae278, 0xbdbdf21c,
          0xb3667a2e, 0xb40bbe37, 0x5a05df1b, 0x2d02ef8d);
  }

  lemma OnesStep2()
    ensures TakeByte8(0x2d02ef8d, 0xff) == 0xbe2612ff
  {
    hide TakeByte8;
    Steps(0xff, 0x2d02ef8d, 0x168177c6, 0xe6f838c3, 0x737c1c61, 0x39be0e30,
          0xf1678438, 0x950b413c, 0xa73d23be, 0xbe2612ff);
  }

  lemma OnesStep3()
    ensures TakeByte8(0xbe2612ff, 0xff) == 0x00be2612
  {
    hide TakeByte8;
    Steps(0xff, 0xbe2612ff, 0x5f13097f, 0x2f8984bf, 0x17c4c25f, 0x0be2612f,
          0x05f13097, 0x02f8984b, 0x017c4c25, 0x00be2612);
  }

  lemma OnesStep4()
    ensures TakeByte8(0x00be2612, 0xff) == 0xdebb20e3
  {
    hide TakeByte8;
    Steps(0xff, 0x00be2612, 0xede79029, 0x76f3c814, 0xd6c1672a, 0x86d830b5,
          0x436c185a, 0xcc0e8f0d, 0x66074786, 0xdebb20e3);
  }

  lemma DigitStep1()
    ensures TakeByte8(0xffffffff, 0x31) == 0x7c231048
  {
    hide TakeByte8;
    Steps(0x31, 0xffffffff, 0x7fffffff, 0xd2477cdf, 0x849b3d4f, 0xaff51d87,
          0x57fa8ec3, 0x2bfd4761, 0xf8462090, 0x7c231048);
  }

  lemma DigitStep2()
    ensures TakeByte8(0x7c231048, 0x32) == 0xb0acbb32
  {
    hide TakeByte8;
    Steps(0x32, 0x7c231048, 0x3e118824, 0xf2b04732, 0x79582399, 0xd11492ec,
          0x8532ca56, 0xaf21e60b, 0xba287025, 0xb0acbb32);
  }

  lemma DigitStep3()
    ensures TakeByte8(0xb0acbb32, 0x33) == 0x77b79c2d
  {
    hide TakeByte8;
    Steps(0x33, 0xb0acbb32, 0xb5eedeb9, 0x5af76f5c, 0x2d7bb7ae, 0x16bddbd7,
          0x0b5eedeb, 0x05af76f5, 0xef6f385a, 0x77b79c2d);
  }

  lemma DigitStep4()
    ensures TakeByte8(0x77b79c2d, 0x34) == 0x641c1f5c
  {
    hide TakeByte8;
    Steps(0x34, 0x77b79c2d, 0xd6634d36, 0x6b31a69b, 0x3598d34d, 0xf774ea86,
          0x9602f663, 0x4b017b31, 0xc8383eb8, 0x641c1f5c);
  }

  lemma DigitStep5()
    ensures TakeByte8(0x641c1f5c, 0x35) == 0x340ac5e3
  {
    hide TakeByte8;
    Steps(0x35, 0x641c1f5c, 0xdfb68c8e, 0x6fdb4647, 0x37eda323, 0xf64e52b1,
          0x7b272958, 0xd02b178c, 0x68158bc6, 0x340ac5e3);
  }

  lemma DigitStep6()
    ensures TakeByte8(0x340ac5e3, 0x36) == 0xf68d2c9e
  {
    hide TakeByte8;
    Steps(0x36, 0x340ac5e3, 0xf7bde1d1, 0x7bdef0e8, 0xd057fb54, 0x682bfdaa,
          0xd9ad7df5, 0x6cd6befa, 0x366b5f7d, 0xf68d2c9e);
  }

  lemma DigitStep7()
    ensures TakeByte8(0xf68d2c9e, 0x37) == 0xaffc9660
  {
    hide TakeByte8;
    Steps(0x37, 0xf68d2c9e, 0x96fe156f, 0x4b7f0ab7, 0x25bf855b, 0xff67418d,
          0x7fb3a0c6, 0xd2615343, 0x84882a81, 0xaffc9660);
  }

  lemma DigitStep8()
    ensures TakeByte8(0xaffc9660, 0x38) == 0x651f2550
  {
    hide TakeByte8;
    Steps(0x38, 0xaffc9660, 0x57fe4b30, 0x2bff2598, 0x15ff92cc, 0xe7474a46,
          0x9e1b2603, 0x4f0d9301, 0xca3e4aa0, 0x651f2550);
  }

  lemma DigitStep9()
    ensures TakeByte8(0x651f2550, 0x39) == 0x340bc6d9
  {
    hide TakeByte8;
    Steps(0x39, 0x651f2550, 0xdf371188, 0x6f9b88c4, 0x37cdc462, 0xf65e6111,
          0x7b2f3088, 0xd02f1b64, 0x68178db2, 0x340bc6d9);
  }

  lemma OnesRemain()
    ensures Divide(0, Ones(32)) == 0xdebb20e3
  {
    hide Divide, Bits, TakeByte8;
    var f: bv8 := 0xff;
    NothingTaken(0);
    OneMoreByte(0, [], f);
    OneMoreByte(0, [f], f);
    OneMoreByte(0, [f, f], f);
    OneMoreByte(0, [f, f, f], f);
    assert [] + [f] == [f] && [f] + [f] == [f, f] && [f, f] + [f] == [f, f, f] && [f, f, f] + [f] == [f, f, f, f];
    OnesStep1();
    OnesStep2();
    OnesStep3();
    OnesStep4();
    FourFull();
  }

  lemma FourFull()
    ensures Bits([0xff, 0xff, 0xff, 0xff]) == Ones(32)
  {
    hide ByteBits;
    var f: bv8 := 0xff;
    FullByte();
    assert [f, f, f, f][1..] == [f, f, f] && [f, f, f][1..] == [f, f] && [f, f][1..] == [f] && [f][1..] == [];
    assert Bits([f]) == Ones(8);
    assert Bits([f, f]) == Ones(16);
    assert Bits([f, f, f]) == Ones(24);
  }

  lemma FullByte()
    ensures ByteBits(0xff) == Ones(8)
  {
  }

  // The laws

  /** A message followed by its checksum, lowest bit first, has the same checksum whatever the
      message. */
  lemma Residue(message: seq<bool>)
    ensures Checksum(message + WordBits(Checksum(message))) == 0x2144DF1C
  {
    hide Divide, WordBits;
    var r := Divide(0xFFFFFFFF, message);
    DivideAppends(0xFFFFFFFF, message, WordBits(!r));
    AfterOwnChecksum(r);
  }

  lemma AfterOwnChecksum(r: word)
    ensures Divide(r, WordBits(!r)) == 0xdebb20e3
  {
    hide Divide, Sum, WordBits, BitAt, HalfTimes;
    Complemented(r);
    DivideSum(r, 0, WordBits(r), Ones(32), WordBits(!r));
    OwnBits(r);
    AllHalved(r);
    OwnSum(r);
    OnesRemain();
    OwnSum(0xdebb20e3);
  }

  lemma Complemented(r: word)
    ensures forall i :: 0 <= i < 32 ==> WordBits(!r)[i] == (WordBits(r)[i] != Ones(32)[i])
  {
    hide BitAt;
    forall i: nat | i < 32
      ensures BitAt(!r, i) == !BitAt(r, i)
    {
      ComplementBit(r, i);
    }
  }

  lemma OwnBits(r: word)
    ensures Divide(r, WordBits(r)) == HalfTimes(r, 32)
  {
    hide BitAt, HalfTimes, Divide;
    NoFeedback(r, WordBits(r));
  }

  const DIGITS: seq<bv8> := [0x31, 0x32, 0x33, 0x34, 0x35, 0x36, 0x37, 0x38, 0x39]

  lemma ChecksumOfDigits()
    ensures Checksum(Bits(DIGITS)) == 0xCBF43926
  {
    hide Divide, Bits, TakeByte8;
    var c: word := 0xFFFFFFFF;
    NothingTaken(c);
    OneMoreByte(c, DIGITS[..0], 0x31);
    assert DIGITS[..1] == DIGITS[..0] + [0x31];
    DigitStep1();
    OneMoreByte(c, DIGITS[..1], 0x32);
    assert DIGITS[..2] == DIGITS[..1] + [0x32];
    DigitStep2();
    OneMoreByte(c, DIGITS[..2], 0x33);
    assert DIGITS[..3] == DIGITS[..2] + [0x33];
    DigitStep3();
    OneMoreByte(c, DIGITS[..3], 0x34);
    assert DIGITS[..4] == DIGITS[..3] + [0x34];
    DigitStep4();
    OneMoreByte(c, DIGITS[..4], 0x35);
    assert DIGITS[..5] == DIGITS[..4] + [0x35];
    DigitStep5();
    OneMoreByte(c, DIGITS[..5], 0x36);
    assert DIGITS[..6] == DIGITS[..5] + [0x36];
    DigitStep6();
    OneMoreByte(c, DIGITS[..6], 0x37);
    assert DIGITS[..7] == DIGITS[..6] + [0x37];
    DigitStep7();
    OneMoreByte(c, DIGITS[..7], 0x38);
    assert DIGITS[..8] == DIGITS[..7] + [0x38];
    DigitStep8();
    OneMoreByte(c, DIGITS[..8], 0x39);
    assert DIGITS[..9] == DIGITS[..8] + [0x39];
    DigitStep9();
    assert DIGITS == DIGITS[..8] + [0x39];
  }

  lemma ChecksumOfNothing()
    ensures Checksum(Bits([])) == 0
  {
    NothingTaken(0xFFFFFFFF);
  }

  /** The program on no buffers, and on the nine digits. */
  method CheckValues(littleEndian: bool) returns (none: word, digits: word)
    ensures none == 0
    ensures InMemory(digits, littleEndian) == [0xCB, 0xF4, 0x39, 0x26]
  {
    hide Checksum, Bits, InMemory, BigEndian;
    var g := new Globals();
    none := g.EnetCrc32([], littleEndian);
    digits := g.EnetCrc32([DIGITS], littleEndian);
    ChecksumOfNothing();
    ChecksumOfDigits();
    OneBuffer(DIGITS);
    ZeroStored(none, littleEndian);
    DigitsStored();
  }

  lemma OneBuffer(data: seq<bv8>)
    ensures Concat([data]) == data && Concat([]) == []
  {
    assert [data][1..] == [];
    assert data + [] == data;
  }

  lemma ZeroStored(c: word, littleEndian: bool)
    requires InMemory(c, littleEndian) == BigEndian(0)
    ensures c == 0
  {
    hide ByteOf;
    NoBytes(c);
  }

  lemma NoBytes(c: word)
    ensures ByteOf(0, 0) == ByteOf(0, 1) == ByteOf(0, 2) == ByteOf(0, 3) == 0
    ensures ByteOf(c, 0) == ByteOf(c, 1) == ByteOf(c, 2) == ByteOf(c, 3) == 0 ==> c == 0
  {
  }

  lemma DigitsStored()
    ensures BigEndian(0xCBF43926) == [0xCB, 0xF4, 0x39, 0x26]
  {
  }
}
