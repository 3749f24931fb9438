/** ENet's table-driven CRC-32 against the bit-at-a-time division. */
module Crc32 {
  import opened Remainders
  import opened WordReversal

  // One step with the highest power first, as the table is made

  function Shift(c: word): word {
    if Top(c) then Sum(Double(c), POLYNOMIAL) else Double(c)
  }

  lemma MirrorOfPolynomial()
    ensures Mirror(POLYNOMIAL, 32) == REFLECTED
  {
    assert Shl(1, 8) == 0x100;
    assert Shl(1, 16) == 0x10000;
    assert Shl(1, 24) == 0x1000000;
    assert Mirror(0x04, 8) == 0x20;
    assert Mirror(0x04c1, 16) == 0x8320;
    assert Mirror(0x04c11d, 24) == 0xB88320;
  }

  lemma HighestBit(v: word)
    ensures BitAt(v, 31) == Top(v)
  {
    hide BitAt, Shl;
    BitOfPower(v, 31);
    assert Shl(1, 31) == 0x80000000 by { TopPower(); }
    assert Top(v) == (And(v, 0x80000000) != 0);
  }

  lemma TopPower()
    ensures Shl(1, 31) == 0x80000000
  {
    assert Shl(1, 8) == 0x100;
    assert Shl(1, 16) == 0x10000;
    assert Shl(1, 24) == 0x1000000;
  }

  lemma MirrorOfShiftStep(c: word)
    ensures Mirror(Shift(c), 32) == Take(Mirror(c, 32), false)
  {
    hide Mirror, BitAt, Top, Double, Half, Odd, Or, Sum, Fits;
    MirrorLast(c, 31);
    HighestBit(c);
    MirrorFits(c, 31);
    FitsBelowTop(Mirror(c, 31), 31);
    Appended(Mirror(c, 31), Top(c));
    MirrorOfDouble(c, 31);
    MirrorOfSum(Double(c), POLYNOMIAL, 32);
    MirrorOfPolynomial();
    OwnSum(Mirror(c, 31));
  }

  // The table

  function Zeros(n: nat): seq<bool> {
    seq(n, _ => false)
  }

  /** What eight steps make of a byte. */
  function Entry(b: bv8): word {
    Divide(b as word, Zeros(8))
  }

  lemma {:induction false} DivideZeros(c: word, n: nat)
    ensures Divide(c, Zeros(n + 1)) == Take(Divide(c, Zeros(n)), false)
  {
    hide Take;
    assert Zeros(n + 1) == Zeros(n) + [false];
    DivideAppends(c, Zeros(n), [false]);
    assert Divide(Divide(c, Zeros(n)), [false]) == Take(Divide(c, Zeros(n)), false);
  }

  lemma {:induction false} DivideSum(c: word, d: word, a: seq<bool>, b: seq<bool>, s: seq<bool>)
    requires |a| == |b| == |s| && forall i :: 0 <= i < |s| ==> s[i] == (a[i] != b[i])
    ensures Divide(Sum(c, d), s) == Sum(Divide(c, a), Divide(d, b))
    decreases |s|
  {
    hide Take, Sum;
    if s != [] {
      TakeDifference(c, d, a[0], b[0]);
      DivideSum(Take(c, a[0]), Take(d, b[0]), a[1..], b[1..], s[1..]);
    }
  }

  function HalfTimes(c: word, n: nat): word
    decreases n
  {
    if n == 0 then c else HalfTimes(Half(c), n - 1)
  }

  /** When the bits taken are the remainder's own there is no feedback. */
  lemma {:induction false} NoFeedback(c: word, bits: seq<bool>)
    requires forall i :: 0 <= i < |bits| ==> bits[i] == BitAt(c, i)
    ensures Divide(c, bits) == HalfTimes(c, |bits|)
    decreases |bits|
  {
    hide Odd, Half, Sum;
    if bits != [] {
      assert bits[0] == BitAt(c, 0);
      OwnSum(Half(c));
      forall i | 0 <= i < |bits| - 1
        ensures bits[1..][i] == BitAt(Half(c), i)
      {
        assert bits[i + 1] == BitAt(c, i + 1);
      }
      NoFeedback(Half(c), bits[1..]);
    }
  }

  lemma ByteBitsAre(b: bv8)
    ensures var w := b as word;
            && BitAt(w, 0) == (b & 1 != 0) && BitAt(w, 1) == (b & 2 != 0)
            && BitAt(w, 2) == (b & 4 != 0) && BitAt(w, 3) == (b & 8 != 0)
            && BitAt(w, 4) == (b & 16 != 0) && BitAt(w, 5) == (b & 32 != 0)
            && BitAt(w, 6) == (b & 64 != 0) && BitAt(w, 7) == (b & 128 != 0)
  {
  }

  lemma ByteBitsAt(b: bv8)
    ensures |ByteBits(b)| == 8 && forall i :: 0 <= i < 8 ==> ByteBits(b)[i] == BitAt(b as word, i)
  {
    hide BitAt;
    ByteBitsAre(b);
  }

  lemma HalfEight(w: word)
    ensures HalfTimes(w, 8) == w >> 8
  {
  }

  lemma {:induction false} LowBitsFirst(v: word, n: nat)
    ensures LowBits(v, n + 1) == Or(Double(LowBits(Half(v), n)), if Odd(v) then 1 else 0)
    decreases n
  {
    hide Odd, Half, Double, Or;
    OrOfZero(if Odd(v) then 1 else 0);
    if n > 0 {
      LowBitsFirst(v, n - 1);
      DoubleOfOr(Shl(1, n - 1), LowBits(Half(v), n - 1));
      DoubleOfOr(0, LowBits(Half(v), n - 1));
      OrAssociates(if BitAt(v, n) then Shl(1, n) else 0, Double(LowBits(Half(v), n - 1)), if Odd(v) then 1 else 0);
    }
  }

  lemma {:induction false} LowBitsOfSmall(v: word, n: nat)
    requires HalfTimes(v, n) == 0
    ensures LowBits(v, n) == v
    decreases n
  {
    hide Odd, Half, Double, Or, BitAt;
    if n > 0 {
      LowBitsOfSmall(Half(v), n - 1);
      LowBitsFirst(v, n - 1);
      Rejoin(v);
    }
  }

  lemma Rejoin(v: word)
    ensures Or(Double(Half(v)), if Odd(v) then 1 else 0) == v
  {
  }

  lemma ByteIsSmall(b: bv8)
    ensures b as word >> 8 == 0
  {
  }

  /** A byte enters the remainder at its low end... */
  lemma ByteEnters(c: word, b: bv8)
    ensures Divide(c, ByteBits(b)) == Divide(Sum(c, b as word), Zeros(8))
  {
    hide Divide, Sum, ByteBits, BitAt, HalfTimes;
    var w := b as word;
    ByteBitsAt(b);
    NoFeedback(w, ByteBits(b));
    HalfEight(w);
    ByteIsSmall(b);
    DivideSum(c, w, ByteBits(b), ByteBits(b), Zeros(8));
    OwnSum(Divide(c, ByteBits(b)));
  }

  /** ...and only its low end feeds back in eight steps. */
  lemma LowByteFeedsBack(high: word, low: word)
    requires forall i :: 0 <= i < 8 ==> !BitAt(high, i)
    ensures Divide(Sum(high, low), Zeros(8)) == Sum(high >> 8, Divide(low, Zeros(8)))
  {
    hide Divide, Sum, BitAt, HalfTimes;
    DivideSum(high, low, Zeros(8), Zeros(8), Zeros(8));
    NoFeedback(high, Zeros(8));
    HalfEight(high);
  }

  /** The identity the table rests on. */
  lemma ByteStep(c: word, b: bv8)
    ensures Divide(c, ByteBits(b)) == Sum(c >> 8, Entry(Index(c, b)))
  {
    hide Divide, Sum, ByteBits, BitAt, HalfTimes, Index, And;
    var high := And(Sum(c, b as word), 0xFFFFFF00);
    ByteEnters(c, b);
    IndexSplits(c, b);
    HighBits(Sum(c, b as word));
    LowByteFeedsBack(high, Index(c, b) as word);
    HighPart(c, b);
  }

  /** Where the table is looked up. */
  function Index(c: word, b: bv8): bv8 {
    ((c & 0xFF) ^ (b as word)) as bv8
  }

  lemma IndexSplits(c: word, b: bv8)
    ensures Sum(And(Sum(c, b as word), 0xFFFFFF00), Index(c, b) as word) == Sum(c, b as word)
  {
  }

  lemma HighPart(c: word, b: bv8)
    ensures And(Sum(c, b as word), 0xFFFFFF00) >> 8 == c >> 8
  {
  }

  lemma HighBits(c: word)
    ensures forall i :: 0 <= i < 8 ==> !BitAt(And(c, 0xFFFFFF00), i)
  {
    var w := And(c, 0xFFFFFF00);
    assert !BitAt(w, 0) && !BitAt(w, 1) && !BitAt(w, 2) && !BitAt(w, 3);
    assert !BitAt(w, 4) && !BitAt(w, 5) && !BitAt(w, 6) && !BitAt(w, 7);
  }

  // The program

  function Concat(buffers: seq<seq<bv8>>): seq<bv8> {
    if buffers == [] then [] else buffers[0] + Concat(buffers[1..])
  }

  lemma NothingTaken(c: word)
    ensures Divide(c, Bits([])) == c
  {
  }

  lemma TakeByte(c: word, data: seq<bv8>, b: bv8)
    ensures Divide(c, Bits(data + [b])) == Divide(Divide(c, Bits(data)), ByteBits(b))
  {
    hide ByteBits, Divide;
    BitsAppend(data, [b]);
    assert Bits([b]) == ByteBits(b) by { assert [b][1..] == []; }
    DivideAppends(c, Bits(data), ByteBits(b));
  }

  /** What the table is started from. */
  lemma FirstMirror(b: bv8)
    ensures Mirror(Shl(Mirror(b as word, 8), 24), 32) == Divide(b as word, Zeros(0))
  {
    hide Mirror, Shl;
    MirrorOfShift(Mirror(b as word, 8), 24, 8);
    MirrorTwice(b as word, 8);
    HalfEight(b as word);
    ByteIsSmall(b);
    LowBitsOfSmall(b as word, 8);
  }

  /** `ENET_HOST_TO_NET_32`: the byte order is swapped unless it is already the network's. */
  function HostToNet32(c: word, littleEndian: bool): word {
    if littleEndian then (c << 24) | ((c << 8) & 0xFF0000) | ((c >> 8) & 0xFF00) | (c >> 24) else c
  }

  function ByteOf(c: word, k: nat): bv8
    requires k < 4
  {
    ((if k == 0 then c else if k == 1 then c >> 8 else if k == 2 then c >> 16 else c >> 24) & 0xFF) as bv8
  }

  function BigEndian(c: word): seq<bv8> {
    [ByteOf(c, 3), ByteOf(c, 2), ByteOf(c, 1), ByteOf(c, 0)]
  }

  /** The bytes of a word at increasing addresses. */
  function InMemory(c: word, littleEndian: bool): seq<bv8> {
    if littleEndian then [ByteOf(c, 0), ByteOf(c, 1), ByteOf(c, 2), ByteOf(c, 3)] else BigEndian(c)
  }

  lemma Stored(c: word, littleEndian: bool)
    ensures InMemory(HostToNet32(c, littleEndian), littleEndian) == BigEndian(c)
  {
    hide ByteOf, HostToNet32;
    if littleEndian {
      Swapped(c);
    } else {
      Unswapped(c);
    }
  }

  lemma Unswapped(c: word)
    ensures HostToNet32(c, false) == c
  {
  }

  lemma Swapped(c: word)
    ensures ByteOf(HostToNet32(c, true), 0) == ByteOf(c, 3) && ByteOf(HostToNet32(c, true), 1) == ByteOf(c, 2)
    ensures ByteOf(HostToNet32(c, true), 2) == ByteOf(c, 1) && ByteOf(HostToNet32(c, true), 3) == ByteOf(c, 0)
  {
  }

  class Globals {
    var initializedCRC32: bool
    const crcTable: array<word>

    ghost predicate Valid()
      reads this, crcTable
    {
      crcTable.Length == 256 && (initializedCRC32 ==> forall b: bv8 :: crcTable[b as int] == Entry(b))
    }

    constructor ()
      ensures Valid() && fresh(crcTable)
    {
      initializedCRC32 := false;
      crcTable := new word[256];
    }

    method ReflectCrc(val: word, bits: nat) returns (result: word)
      requires bits <= 32
      ensures result == Mirror(val, bits)
    {
      hide Odd, Half, Or, Shl;
      result := 0;
      var rest := val;
      OrOfZero(Mirror(val, bits));
      for bit := 0 to bits
        invariant Or(result, Mirror(rest, bits - bit)) == Mirror(val, bits)
      {
        OrAssociates(result, if Odd(rest) then Shl(1, bits - 1 - bit) else 0, Mirror(Half(rest), bits - 1 - bit));
        OrOfZero(result);
        if Odd(rest) {
          result := Or(result, Shl(1, bits - 1 - bit));
        }
        rest := Half(rest);
      }
      OrOfZero(result);
    }

    method InitializeCrc32()
      requires Valid()
      modifies this, crcTable
      ensures Valid() && initializedCRC32
    {
      hide Mirror, Shl, Divide, Zeros, Top, Double, Sum;
      for byte := 0 to 256
        invariant forall b: bv8 :: b as int < byte ==> crcTable[b as int] == Entry(b)
        modifies crcTable
      {
        var crc := ReflectCrc(byte as bv8 as word, 8);
        crc := Shl(crc, 24);
        FirstMirror(byte as bv8);
        for offset := 0 to 8
          invariant Mirror(crc, 32) == Divide(byte as bv8 as word, Zeros(offset))
          modifies {}
        {
          MirrorOfShiftStep(crc);
          DivideZeros(byte as bv8 as word, offset);
          if Top(crc) {
            crc := Sum(Double(crc), POLYNOMIAL);
          } else {
            crc := Double(crc);
          }
        }
        assert forall b: bv8 {:trigger Entry(b)} :: b as int == byte ==> b == byte as bv8;
        crcTable[byte] := ReflectCrc(crc, 32);
      }
      initializedCRC32 := true;
    }

    method EnetCrc32(buffers: seq<seq<bv8>>, littleEndian: bool) returns (result: word)
      requires Valid()
      modifies this, crcTable
      ensures Valid()
      ensures InMemory(result, littleEndian) == BigEndian(Checksum(Bits(Concat(buffers))))
    {
      hide Divide, Bits, Entry, Index, Sum, ByteBits, InMemory, BigEndian, HostToNet32;
      var crc: word := 0xFFFFFFFF;
      assert crc == Divide(crc, Bits([])) by { NothingTaken(crc); }
      if !initializedCRC32 {
        InitializeCrc32();
      }
      ghost var done: seq<bv8> := [];
      assert buffers[0..] == buffers;
      for k := 0 to |buffers|
        invariant crc == Divide(0xFFFFFFFF, Bits(done))
        invariant done + Concat(buffers[k..]) == Concat(buffers)
        modifies {}
      {
        var data := buffers[k];
        assert done + [] == done
               && done + (data + Concat(buffers[k + 1..])) == (done + data) + Concat(buffers[k + 1..]);
        for i := 0 to |data|
          invariant crc == Divide(0xFFFFFFFF, Bits(done + data[..i]))
          modifies {}
        {
          TakeByte(0xFFFFFFFF, done + data[..i], data[i]);
          assert done + data[..i] + [data[i]] == done + data[..i + 1];
          ByteStep(crc, data[i]);
          crc := Sum(crc >> 8, crcTable[Index(crc, data[i]) as int]);
        }
        assert data[..|data|] == data;
        done := done + data;
      }
      assert done + [] == done;
      result := HostToNet32(!crc, littleEndian);
      Stored(!crc, littleEndian);
    }
  }
}
