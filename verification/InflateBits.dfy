/** How the bits of a stream split into parts and into bytes. */
module InflateBits {
  import opened Bytes
  import opened Powers
  import opened InflateFormat

  lemma {:induction false} BitsSplit(data: seq<byte>, p: nat, m: nat, n: nat)
    ensures Bits(data, p, m + n) == Bits(data, p, m) + Bits(data, p + m, n) * Pow2(m)
    decreases m
  {
    hide InBit;
    if m > 0 {
      BitsSplit(data, p + 1, m - 1, n);
      var high, q := Bits(data, p + m, n), Pow2(m - 1);
      assert Bits(data, p, m + n) == InBit(data, p) + 2 * Bits(data, p + 1, m - 1 + n);
      assert Bits(data, p, m) == InBit(data, p) + 2 * Bits(data, p + 1, m - 1);
      MulDouble(high, q);
    }
  }

  /** Taking bits off the bottom of a number leaves the bits behind them. */
  lemma BitsTake(data: seq<byte>, p: nat, m: nat, n: nat)
    requires m <= n
    ensures Bits(data, p, n) % Pow2(m) == Bits(data, p, m)
    ensures Bits(data, p, n) / Pow2(m) == Bits(data, p + m, n - m)
  {
    hide Bits, Pow2;
    BitsSplit(data, p, m, n - m);
    DivModUnique(Bits(data, p, n), Pow2(m), Bits(data, p + m, n - m), Bits(data, p, m));
  }

  function Halve(b: nat, j: nat): nat {
    if j == 0 then b else Halve(b / 2, j - 1)
  }

  lemma {:induction false} BitOfHalved(b: nat, j: nat)
    ensures Bit(b, j) <==> Halve(b, j) % 2 == 1
    ensures Halve(b, j + 1) == Halve(b, j) / 2
    decreases j
  {
    if j > 0 {
      BitOfHalved(b / 2, j - 1);
    }
  }

  lemma InBitOfByte(data: seq<byte>, q: nat, j: nat)
    requires j < 8
    ensures InBit(data, 8 * q + j) == if q < |data| then Halve(data[q], j) % 2 else 0
  {
    hide Bit, Halve;
    DivModUnique(8 * q + j, 8, q, j);
    if q < |data| {
      BitOfHalved(data[q], j);
    }
  }

  lemma {:induction false} TailOfByte(data: seq<byte>, q: nat, n: nat)
    requires n <= 8
    ensures Bits(data, 8 * q + (8 - n), n) == if q < |data| then Halve(data[q], 8 - n) else 0
    decreases n
  {
    hide Bit, Halve, InBit;
    if n == 0 {
      if q < |data| {
        Pow2Of16();
        AllHalved(data[q], 8);
      }
    } else {
      TailOfByte(data, q, n - 1);
      InBitOfByte(data, q, 8 - n);
      assert 8 * q + (8 - n) + 1 == 8 * q + (8 - (n - 1));
      if q < |data| {
        BitOfHalved(data[q], 8 - n);
      }
    }
  }

  lemma {:induction false} AllHalved(b: nat, j: nat)
    requires b < Pow2(j)
    ensures Halve(b, j) == 0
    decreases j
  {
    if j > 0 {
      AllHalved(b / 2, j - 1);
    }
  }

  /** Eight bits at a byte boundary are the byte there, zero past the end. */
  lemma AlignedByte(data: seq<byte>, q: nat)
    ensures Bits(data, 8 * q, 8) == ByteAt(data, q)
  {
    TailOfByte(data, q, 8);
  }

  /** Sixteen bits at a byte boundary are two bytes, the low one first. */
  lemma AlignedWord(data: seq<byte>, q: nat)
    ensures Bits(data, 8 * q, 16) == ByteAt(data, q) + ByteAt(data, q + 1) * 256
  {
    hide Bits, Pow2;
    BitsSplit(data, 8 * q, 8, 8);
    AlignedByte(data, q);
    AlignedByte(data, q + 1);
    Pow2Of16();
    assert 8 * q + 8 == 8 * (q + 1);
  }
}
