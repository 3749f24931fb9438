/** Remainders of bit strings by the CRC-32 polynomial, one bit at a time: the division of
    section 8 of RFC 1952. */
module Remainders {

  type word = bv32

  /** The generator polynomial, highest power first, and with the powers reflected. */
  const POLYNOMIAL: word := 0x04c11db7
  const REFLECTED: word := 0xEDB88320

  // The reference: one message bit at a time

  predicate Odd(c: word) {
    c & 1 == 1
  }

  function Half(c: word): word {
    c >> 1
  }

  /** Sum of polynomials over the two-element field; also their difference. */
  function Sum(c: word, d: word): word {
    c ^ d
  }

  function Feedback(odd: bool): word {
    if odd then REFLECTED else 0
  }

  /** Takes the next message bit into the remainder. */
  function Take(c: word, bit: bool): word {
    Sum(Half(c), Feedback(Odd(c) != bit))
  }

  function Divide(c: word, bits: seq<bool>): word
    decreases |bits|
  {
    if bits == [] then c else Divide(Take(c, bits[0]), bits[1..])
  }

  /** A byte's bits, lowest first. */
  function ByteBits(b: bv8): seq<bool> {
    [b & 1 != 0, b & 2 != 0, b & 4 != 0, b & 8 != 0, b & 16 != 0, b & 32 != 0, b & 64 != 0, b & 128 != 0]
  }

  function Bits(data: seq<bv8>): seq<bool> {
    if data == [] then [] else ByteBits(data[0]) + Bits(data[1..])
  }

  function Checksum(bits: seq<bool>): word {
    !Divide(0xFFFFFFFF, bits)
  }

  lemma {:induction false} DivideAppends(c: word, a: seq<bool>, b: seq<bool>)
    ensures Divide(c, a + b) == Divide(Divide(c, a), b)
    decreases |a|
  {
    hide Take;
    if a == [] {
      assert a + b == b;
    } else {
      DivideAppends(Take(c, a[0]), a[1..], b);
      assert (a + b)[1..] == a[1..] + b;
    }
  }

  lemma {:induction false} BitsAppend(a: seq<bv8>, b: seq<bv8>)
    ensures Bits(a + b) == Bits(a) + Bits(b)
  {
    hide Bits, ByteBits;
    NoBits();
    if a == [] {
      assert a + b == b;
    } else {
      BitsAppend(a[1..], b);
      assert (a + b)[1..] == a[1..] + b;
      FirstByte(a);
      FirstByte(a + b);
    }
  }

  lemma NoBits()
    ensures Bits([]) == []
  {
  }

  lemma FirstByte(data: seq<bv8>)
    requires data != []
    ensures Bits(data) == ByteBits(data[0]) + Bits(data[1..])
  {
  }

  // What the checksum is for: every error burst of at most 32 bits is detected

  /** The difference of two remainders is itself a remainder, of the difference. */
  lemma TakeDifference(c: word, d: word, a: bool, b: bool)
    ensures Sum(Take(c, a), Take(d, b)) == Take(Sum(c, d), a != b)
  {
    hide Odd, Half, Feedback, Sum;
    DifferenceOfParts(c, d, Odd(c) != a, Odd(d) != b);
    Exchange(Half(c), Half(d), Feedback(Odd(c) != a), Feedback(Odd(d) != b));
  }

  lemma DifferenceOfParts(c: word, d: word, x: bool, y: bool)
    ensures Odd(Sum(c, d)) == (Odd(c) != Odd(d))
    ensures Sum(Half(c), Half(d)) == Half(Sum(c, d))
    ensures Sum(Feedback(x), Feedback(y)) == Feedback(x != y)
  {
  }

  lemma SumAssociates(x: word, y: word, z: word)
    ensures Sum(Sum(x, y), z) == Sum(x, Sum(y, z))
  {
  }

  lemma SumCommutes(x: word, y: word)
    ensures Sum(x, y) == Sum(y, x)
  {
  }

  lemma Exchange(p: word, q: word, x: word, y: word)
    ensures Sum(Sum(p, x), Sum(q, y)) == Sum(Sum(p, q), Sum(x, y))
  {
    hide Sum;
    SumAssociates(p, x, Sum(q, y));
    SumAssociates(x, q, y);
    SumCommutes(x, q);
    SumAssociates(q, x, y);
    SumAssociates(p, q, Sum(x, y));
  }

  lemma TakeIsInjective(c: word, d: word, bit: bool)
    requires Take(c, bit) == Take(d, bit)
    ensures c == d
  {
  }

  lemma {:induction false} DivideIsInjective(c: word, d: word, bits: seq<bool>)
    requires Divide(c, bits) == Divide(d, bits)
    ensures c == d
    decreases bits
  {
    if bits != [] {
      DivideIsInjective(Take(c, bits[0]), Take(d, bits[0]), bits[1..]);
      TakeIsInjective(c, d, bits[0]);
    }
  }

  /** `t` halved `n` times is not yet zero. */
  predicate Survives(t: word, n: nat)
    decreases n
  {
    t != 0 && (n == 0 || Survives(Half(t), n - 1))
  }

  lemma {:induction false} SurvivesFewer(t: word, m: nat, n: nat)
    requires m <= n && Survives(t, n)
    ensures Survives(t, m)
    decreases m
  {
    hide Half;
    if m > 0 {
      SurvivesFewer(Half(t), m - 1, n - 1);
    }
  }

  predicate AtLeast(d: word, t: word) {
    d >= t
  }

  predicate Apart(c: word, d: word, t: word) {
    AtLeast(Sum(c, d), t)
  }

  /** A difference loses at most one of its places with each bit. */
  lemma DifferenceLingers(c: word, d: word, t: word, a: bool, b: bool)
    requires Apart(c, d, t)
    ensures Apart(Take(c, a), Take(d, b), Half(t))
  {
    hide Take, Sum, Half, AtLeast;
    TakeDifference(c, d, a, b);
    TopBits(Sum(c, d), t, a != b);
  }

  lemma TopBits(d: word, t: word, bit: bool)
    requires AtLeast(d, t)
    ensures AtLeast(Take(d, bit), Half(t))
  {
  }

  lemma ApartDiffer(c: word, d: word, t: word)
    requires Apart(c, d, t) && t != 0
    ensures c != d
  {
  }

  lemma {:induction false} StaysDifferent(c: word, d: word, t: word, a: seq<bool>, b: seq<bool>)
    requires |a| == |b| && Apart(c, d, t) && Survives(t, |a|)
    ensures Divide(c, a) != Divide(d, b)
    decreases |a|
  {
    hide Take, Half, Apart;
    if a == [] {
      ApartDiffer(c, d, t);
    } else {
      DifferenceLingers(c, d, t, a[0], b[0]);
      StaysDifferent(Take(c, a[0]), Take(d, b[0]), Half(t), a[1..], b[1..]);
    }
  }

  lemma FirstDifference(c: word, bit: bool)
    ensures Apart(Take(c, bit), Take(c, !bit), 0x80000000)
  {
    hide Take, Sum, AtLeast;
    TakeDifference(c, c, bit, !bit);
    OwnDifference(c);
  }

  lemma OwnDifference(c: word)
    ensures AtLeast(Take(Sum(c, c), true), 0x80000000)
  {
    hide Take, AtLeast, Sum;
    OwnSum(c);
    TakeOfZero();
    ReflectedIsHigh();
  }

  lemma OwnSum(c: word)
    ensures Sum(c, c) == 0 && Sum(c, 0) == c && Sum(0, c) == c
  {
  }

  lemma TakeOfZero()
    ensures Take(0, true) == REFLECTED
  {
  }

  lemma ReflectedIsHigh()
    ensures AtLeast(REFLECTED, 0x80000000)
  {
  }

  lemma SurvivesAll()
    ensures Survives(0x80000000, 31)
  {
    assert Survives(0x80, 7);
    assert Survives(0x8000, 15);
    assert Survives(0x800000, 23);
  }

  lemma {:induction false} BurstChangesRemainder(c: word, a: seq<bool>, b: seq<bool>)
    requires |a| == |b| <= 32 && a != b
    ensures Divide(c, a) != Divide(c, b)
    decreases |a|
  {
    hide Take, Apart, Survives;
    if a[0] == b[0] {
      assert a[1..] != b[1..] by { assert a == [a[0]] + a[1..] && b == [b[0]] + b[1..]; }
      BurstChangesRemainder(Take(c, a[0]), a[1..], b[1..]);
    } else {
      FirstDifference(c, a[0]);
      SurvivesAll();
      SurvivesFewer(0x80000000, |a| - 1, 31);
      StaysDifferent(Take(c, a[0]), Take(c, b[0]), 0x80000000, a[1..], b[1..]);
    }
  }

  lemma BurstIsDetected(before: seq<bool>, a: seq<bool>, b: seq<bool>, after: seq<bool>)
    requires |a| == |b| <= 32 && a != b
    ensures Checksum(before + a + after) != Checksum(before + b + after)
  {
    var c := Divide(0xFFFFFFFF, before);
    BurstChangesRemainder(c, a, b);
    DivideAppends(0xFFFFFFFF, before, a);
    DivideAppends(0xFFFFFFFF, before, b);
    DivideAppends(0xFFFFFFFF, before + a, after);
    DivideAppends(0xFFFFFFFF, before + b, after);
    if Divide(Divide(c, a), after) == Divide(Divide(c, b), after) {
      DivideIsInjective(Divide(c, a), Divide(c, b), after);
    }
  }
}
