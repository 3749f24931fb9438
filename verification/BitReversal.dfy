/** The 16-bit reversal of the inflater (`bitreverse16`), by masks and shifts. */
module BitReversal {
  import opened Powers

  // Swapping neighbours: bits, pairs, nibbles and bytes

  function SwapBits(n: bv16): bv16 {
    ((n & 0xAAAA) >> 1) | ((n & 0x5555) << 1)
  }

  function SwapPairs(n: bv16): bv16 {
    ((n & 0xCCCC) >> 2) | ((n & 0x3333) << 2)
  }

  function SwapNibbles(n: bv16): bv16 {
    ((n & 0xF0F0) >> 4) | ((n & 0x0F0F) << 4)
  }

  function SwapBytes(n: bv16): bv16 {
    ((n & 0xFF00) >> 8) | ((n & 0x00FF) << 8)
  }

  function BitReverse16(n: bv16): bv16 {
    SwapBytes(SwapNibbles(SwapPairs(SwapBits(n))))
  }

  function Value(n: bv16): (v: nat) {
    n as int
  }

  /** The lowest `bits` bits of `n`, reversed by reversing sixteen and shifting. */
  function BitReverse(n: bv16, bits: nat): nat
    requires bits <= 16
  {
    Quotient(Value(BitReverse16(n)), Pow2(16 - bits))
  }

  // Words bit by bit

  function Half(n: bv16): bv16 {
    n >> 1
  }

  predicate Odd(n: bv16) {
    n & 1 == 1
  }

  function Twice(n: bv16): bv16 {
    n << 1
  }

  function TwiceAndOne(n: bv16): bv16 {
    (n << 1) | 1
  }

  function Push(n: bv16, bit: bool): bv16 {
    if bit then TwiceAndOne(n) else Twice(n)
  }

  predicate TopClear(n: bv16) {
    n < 0x8000
  }

  /** The machine word of the lowest `k` bits of a number. */
  function WordOf(v: nat, k: nat): bv16 {
    if k == 0 then 0 else Push(WordOf(v / 2, k - 1), v % 2 == 1)
  }

  function Halves(n: bv16, i: nat): bv16 {
    if i == 0 then n else Half(Halves(n, i - 1))
  }

  /** The lowest `i` bits of `n`, pushed one after the other from the lowest. */
  function Collected(n: bv16, i: nat): bv16 {
    if i == 0 then 0 else Push(Collected(n, i - 1), Odd(Halves(n, i - 1)))
  }

  lemma TopClearIff(n: bv16)
    ensures TopClear(n) <==> Value(n) < 0x8000
  {
  }

  lemma TwiceValue(n: bv16)
    requires TopClear(n)
    ensures Value(Twice(n)) == 2 * Value(n)
  {
  }

  lemma TwiceAndOneValue(n: bv16)
    requires TopClear(n)
    ensures Value(TwiceAndOne(n)) == 2 * Value(n) + 1
  {
  }

  lemma HalfAndBit(n: bv16)
    ensures n == Push(Half(n), Odd(n)) && TopClear(Half(n))
  {
  }

  lemma HalfValue(n: bv16)
    ensures Value(n) == 2 * Value(Half(n)) + if Odd(n) then 1 else 0
  {
    hide Value, Half, Odd, Twice, TwiceAndOne, TopClear;
    HalfAndBit(n);
    TwiceValue(Half(n));
    TwiceAndOneValue(Half(n));
  }

  lemma PushValue(n: bv16, bit: bool, k: nat)
    requires Value(n) < Pow2(k) && k < 16
    ensures Value(Push(n, bit)) == 2 * Value(n) + if bit then 1 else 0
  {
    hide Value, Twice, TwiceAndOne, TopClear, Pow2;
    Pow2Grows(k, 15);
    Pow2Of16();
    TopClearIff(n);
    if bit {
      TwiceAndOneValue(n);
    } else {
      TwiceValue(n);
    }
  }

  lemma ZeroValue(n: bv16, v: nat)
    ensures Value(WordOf(v, 0)) == Value(Collected(n, 0)) == 0
  {
  }

  lemma {:induction false} WordOfValue(v: nat, k: nat)
    requires k <= 16
    ensures Value(WordOf(v, k)) == v % Pow2(k)
    decreases k
  {
    hide Push, Value;
    if k == 0 {
      ZeroValue(0, v);
    } else {
      hide Pow2;
      WordOfValue(v / 2, k - 1);
      PushValue(WordOf(v / 2, k - 1), v % 2 == 1, k - 1);
      HalfMod(v, k);
    }
  }

  lemma {:induction false} HalvesValue(n: bv16, i: nat)
    ensures Value(Halves(n, i)) == Value(n) / Pow2(i)
    decreases i
  {
    hide Value, Half, Odd;
    if i > 0 {
      HalvesValue(n, i - 1);
      HalfValue(Halves(n, i - 1));
      OneMoreBit(Value(n), i);
    }
  }

  /** The lowest `i` bits of a number are the lowest `i - 1` and the next. */
  lemma OneMoreBit(v: nat, i: nat)
    requires i >= 1
    ensures v / Pow2(i) == v / Pow2(i - 1) / 2
    ensures v % Pow2(i) == v % Pow2(i - 1) + v / Pow2(i - 1) % 2 * Pow2(i - 1)
  {
    var h := Pow2(i - 1);
    var q := v / h;
    MulBounds(1 - q % 2, h);
    Distributes(q / 2 * 2, q % 2, h);
    MulAssociates(q / 2, 2, h);
    DivModUnique(v, 2 * h, q / 2, v % h + q % 2 * h);
  }

  lemma {:induction false} CollectedValue(n: bv16, i: nat)
    requires i <= 16
    ensures Value(Collected(n, i)) == Reverse(Value(n) % Pow2(i), i)
    decreases i
  {
    hide Push, Value, Half, Odd, Halves, Reverse, Pow2;
    if i == 0 {
      ZeroValue(n, 0);
      NoBits(Value(n) % Pow2(0));
    } else {
      CollectedValue(n, i - 1);
      HalvesValue(n, i - 1);
      HalfValue(Halves(n, i - 1));
      PushValue(Collected(n, i - 1), Odd(Halves(n, i - 1)), i - 1);
      OneMoreBit(Value(n), i);
      ReverseTop(Value(n) % Pow2(i - 1), Value(n) / Pow2(i - 1) % 2, i - 1);
    }
  }

  // The masks do the same

  function ReversedNibble(n: bv16): bv16 {
    ((n & 1) << 3) | ((n & 2) << 1) | ((n & 4) >> 1) | ((n & 8) >> 3)
  }

  function NextNibbles(n: bv16): bv16 {
    n >> 4
  }

  function PushNibble(c: bv16, nibble: bv16): bv16 {
    (c << 4) | nibble
  }

  lemma FourPushes(c: bv16, n: bv16)
    ensures Push(Push(Push(Push(c, Odd(n)), Odd(Half(n))), Odd(Half(Half(n)))), Odd(Half(Half(Half(n)))))
         == PushNibble(c, ReversedNibble(n))
    ensures Half(Half(Half(Half(n)))) == NextNibbles(n)
  {
  }

  lemma FourCollected(n: bv16, i: nat)
    ensures Collected(n, i + 4) == PushNibble(Collected(n, i), ReversedNibble(Halves(n, i)))
    ensures Halves(n, i + 4) == NextNibbles(Halves(n, i))
  {
    hide Push, Odd, Half, PushNibble, ReversedNibble, NextNibbles;
    FourPushes(Collected(n, i), Halves(n, i));
    assert Halves(n, i + 2) == Half(Half(Halves(n, i)));
    assert Collected(n, i + 2) == Push(Push(Collected(n, i), Odd(Halves(n, i))), Odd(Half(Halves(n, i))));
  }

  /** The word of four nibbles, the first one highest. */
  function Nibbles(a: bv16, b: bv16, c: bv16, d: bv16): bv16 {
    PushNibble(PushNibble(PushNibble(PushNibble(0, a), b), c), d)
  }

  function Twisted(n: bv16): bv16 {
    SwapPairs(SwapBits(n))
  }

  function LowNibble(n: bv16): bv16 {
    n & 0xF
  }

  lemma LowTwisted(n: bv16)
    ensures LowNibble(Twisted(n)) == ReversedNibble(n)
  {
  }

  lemma NextTwisted(n: bv16)
    ensures NextNibbles(Twisted(n)) == Twisted(NextNibbles(n))
  {
  }

  lemma LowAndNext(n: bv16)
    ensures n == PushNibble(NextNibbles(n), LowNibble(n))
  {
  }

  lemma TwistedNibble(n: bv16)
    ensures Twisted(n) == PushNibble(Twisted(NextNibbles(n)), ReversedNibble(n))
  {
    hide Twisted, LowNibble, ReversedNibble, NextNibbles, PushNibble;
    LowTwisted(n);
    NextTwisted(n);
    LowAndNext(Twisted(n));
  }

  lemma NothingTwisted(n: bv16)
    ensures Twisted(NextNibbles(NextNibbles(NextNibbles(NextNibbles(n))))) == 0
  {
  }

  /** Swapping bits and pairs reverses each nibble in its place. */
  lemma TwistedNibbles(n: bv16)
    ensures var m := NextNibbles(NextNibbles(n));
            Twisted(n) == Nibbles(ReversedNibble(NextNibbles(m)), ReversedNibble(m), ReversedNibble(NextNibbles(n)),
                                  ReversedNibble(n))
  {
    hide Twisted, PushNibble, NextNibbles, ReversedNibble;
    var m := NextNibbles(NextNibbles(n));
    TwistedNibble(n);
    TwistedNibble(NextNibbles(n));
    TwistedNibble(m);
    TwistedNibble(NextNibbles(m));
    NothingTwisted(n);
  }

  predicate IsNibble(n: bv16) {
    n < 16
  }

  lemma ReversedIsNibble(n: bv16)
    ensures IsNibble(ReversedNibble(n))
  {
  }

  lemma SwapsOfNibbles(a: bv16, b: bv16, c: bv16, d: bv16)
    requires IsNibble(a) && IsNibble(b) && IsNibble(c) && IsNibble(d)
    ensures SwapBytes(SwapNibbles(Nibbles(a, b, c, d))) == Nibbles(d, c, b, a)
  {
  }

  lemma MasksCollect(n: bv16)
    ensures BitReverse16(n) == Collected(n, 16)
  {
    hide SwapBits, SwapPairs, SwapNibbles, SwapBytes, IsNibble, ReversedNibble, NextNibbles, PushNibble, Halves,
         Collected;
    NothingCollected(n);
    FourCollected(n, 0);
    FourCollected(n, 4);
    FourCollected(n, 8);
    FourCollected(n, 12);
    var m := NextNibbles(NextNibbles(n));
    TwistedNibbles(n);
    ReversedIsNibble(n);
    ReversedIsNibble(NextNibbles(n));
    ReversedIsNibble(m);
    ReversedIsNibble(NextNibbles(m));
    SwapsOfNibbles(ReversedNibble(NextNibbles(m)), ReversedNibble(m), ReversedNibble(NextNibbles(n)),
                   ReversedNibble(n));
  }

  lemma NothingCollected(n: bv16)
    ensures Collected(n, 0) == 0 && Halves(n, 0) == n
  {
  }

  lemma WordReverses(v: nat)
    ensures Value(BitReverse16(WordOf(v, 16))) == Reverse(v, 16)
  {
    hide BitReverse16, WordOf, Collected, Value, Reverse, Pow2;
    WordOfValue(v, 16);
    MasksCollect(WordOf(v, 16));
    CollectedValue(WordOf(v, 16), 16);
    Pow2Of16();
    ReverseLow(v, 16);
  }

  /** Reversing sixteen bits by masks and shifting is reversing the lowest `bits` bits. */
  lemma BitReverseReverses(v: nat, bits: nat)
    requires bits <= 16
    ensures BitReverse(WordOf(v, 16), bits) == Reverse(v, bits)
  {
    hide BitReverse16, WordOf, Value, Reverse, Pow2, Quotient;
    WordReverses(v);
    QuotientIs(Reverse(v, 16), Pow2(16 - bits));
    ReversePrefix(v, 16, bits);
    ReverseLow(v, bits);
  }
}
