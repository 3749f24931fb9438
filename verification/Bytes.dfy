/** Bytes, and the overlapping copy that all three decompressors share. */
module Bytes {
  import opened Powers

  type byte = x: int | 0 <= x < 256

  /** `out` extended by `n` bytes, each a copy of the byte `d` positions before it. */
  function CopyBack(out: seq<byte>, d: nat, n: nat): (r: seq<byte>)
    requires 1 <= d <= |out|
    ensures |r| == |out| + n && out <= r
  {
    if n == 0 then out
    else
      var r := CopyBack(out, d, n - 1);
      r + [r[|r| - d]]
  }

  lemma {:induction false} CopyBackRepeats(out: seq<byte>, d: nat, n: nat)
    requires 1 <= d <= |out|
    ensures forall j :: |out| <= j < |out| + n ==> CopyBack(out, d, n)[j] == CopyBack(out, d, n)[j - d]
    decreases n
  {
    if n > 0 {
      CopyBackRepeats(out, d, n - 1);
    }
  }

  /** The copy is the periodic extension of the last `d` bytes. */
  lemma {:induction false} CopyBackIsPeriodic(out: seq<byte>, d: nat, n: nat, k: nat)
    requires 1 <= d <= |out| && k < n
    ensures CopyBack(out, d, n)[|out| + k] == out[|out| - d + k % d]
    decreases k
  {
    CopyBackRepeats(out, d, n);
    var r := CopyBack(out, d, n);
    assert r[|out| + k] == r[|out| + k - d];
    if k < d {
      DivModUnique(k, d, 0, k);
    } else {
      CopyBackIsPeriodic(out, d, n, k - d);
      ModMinus(k, d);
    }
  }

  lemma ModMinus(k: nat, d: nat)
    requires 1 <= d <= k
    ensures k % d == (k - d) % d
  {
    var q, r := (k - d) / d, (k - d) % d;
    assert k == (q + 1) * d + r;
    DivModUnique(k, d, q + 1, r);
  }

  lemma CopyBackNothing(out: seq<byte>, d: nat)
    requires 1 <= d <= |out|
    ensures CopyBack(out, d, 0) == out
  {
  }

  lemma {:induction false} CopyBackSplit(out: seq<byte>, d: nat, m: nat, n: nat)
    requires 1 <= d <= |out|
    ensures CopyBack(CopyBack(out, d, m), d, n) == CopyBack(out, d, m + n)
    decreases n
  {
    if n > 0 {
      CopyBackSplit(out, d, m, n - 1);
    }
  }

  /** At a distance of at least `n`, copying `n` bytes at once copies them one by one. */
  lemma {:induction false} CopyBackBlock(out: seq<byte>, d: nat, n: nat)
    requires 1 <= d <= |out| && n <= d
    ensures CopyBack(out, d, n) == out + out[|out| - d..|out| - d + n]
    decreases n
  {
    if n > 0 {
      CopyBackBlock(out, d, n - 1);
      var r := CopyBack(out, d, n - 1);
      assert r[|r| - d] == out[|out| - d + n - 1];
      assert out[|out| - d..|out| - d + n] == out[|out| - d..|out| - d + n - 1] + [out[|out| - d + n - 1]];
    }
  }

  /** Data that repeats itself at distance `d` is reproduced by the copy. */
  lemma {:induction false} CopyBackReproduces(data: seq<byte>, at: nat, d: nat, n: nat)
    requires 1 <= d <= at && at + n <= |data|
    requires forall j :: at <= j < at + n ==> data[j] == data[j - d]
    ensures CopyBack(data[..at], d, n) == data[..at + n]
    decreases n
  {
    if n > 0 {
      CopyBackReproduces(data, at, d, n - 1);
    }
  }

  function OrBit(a: nat, b: nat): nat {
    if a % 2 == 1 || b % 2 == 1 then 1 else 0
  }

  /** Bitwise or with a value of two bits. */
  function OrLowBits(b: byte, t: nat): byte
    requires t < 4
  {
    b - b % 4 + OrBit(b / 2, t / 2) * 2 + OrBit(b, t)
  }

  lemma OrBitOfEven(a: nat, b: nat)
    requires a % 2 == 0
    ensures OrBit(a, b) == b % 2
  {
  }

  lemma EvenHalf(b: nat)
    requires b % 4 == 0
    ensures b % 2 == 0 && b / 2 % 2 == 0
  {
    var q := b / 4;
    assert b == 2 * (2 * q);
    assert b / 2 == 2 * q;
  }

  lemma TwoDigits(t: nat)
    requires t < 4
    ensures t / 2 % 2 * 2 + t % 2 == t
  {
  }

  lemma OrLowBitsAdds(b: byte, t: nat)
    requires t < 4 && b % 4 == 0 && b + t < 256
    ensures OrLowBits(b, t) == b + t
  {
    hide OrBit;
    EvenHalf(b);
    OrBitOfEven(b, t);
    OrBitOfEven(b / 2, t / 2);
    TwoDigits(t);
  }
}
