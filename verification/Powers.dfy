/** Powers of two, single bits, and the reversal of a fixed number of bits. */
module Powers {

  function Pow2(n: nat): (p: nat)
    ensures p >= 1
  {
    if n == 0 then 1 else 2 * Pow2(n - 1)
  }

  /** Bit `k` of a number, counting from the lowest. */
  predicate Bit(b: nat, k: nat) {
    if k == 0 then b % 2 == 1 else Bit(b / 2, k - 1)
  }

  lemma {:induction false} Pow2Adds(m: nat, n: nat)
    ensures Pow2(m + n) == Pow2(m) * Pow2(n)
    decreases m
  {
    if m > 0 {
      Pow2Adds(m - 1, n);
      assert Pow2(m + n) == 2 * Pow2(m - 1 + n);
    }
  }

  lemma {:induction false} Pow2Grows(m: nat, n: nat)
    requires m <= n
    ensures Pow2(m) <= Pow2(n)
    decreases n
  {
    if m < n {
      Pow2Grows(m, n - 1);
    }
  }

  lemma Pow2Of16()
    ensures Pow2(4) == 16 && Pow2(8) == 0x100 && Pow2(15) == 0x8000 && Pow2(16) == 0x1_0000
  {
    assert Pow2(4) == 16 by { assert Pow2(2) == 4; }
    Pow2Adds(4, 4);
    Pow2Adds(8, 8);
  }

  lemma MulBounds(x: int, d: nat)
    ensures x >= 1 ==> x * d >= d
    ensures x <= -1 ==> x * d + d <= 0
  {
  }

  lemma DivModUnique(k: int, d: nat, q: int, r: nat)
    requires r < d && k == q * d + r
    ensures k / d == q && k % d == r
  {
    MulBounds(k / d - q, d);
    assert (k / d - q) * d == r - k % d;
  }

  function Quotient(k: nat, d: nat): nat
    requires d > 0
  {
    k / d
  }

  lemma QuotientIs(k: nat, d: nat)
    requires d > 0
    ensures Quotient(k, d) == k / d
  {
  }

  lemma DivBounds(k: nat, d: nat)
    requires d > 0
    ensures k / d * d <= k < (k / d + 1) * d
  {
  }

  lemma AddMultiple(x: nat, d: nat, y: nat)
    requires d > 0
    ensures (x * d + y) / d == x + y / d
  {
    assert x * d + y == (x + y / d) * d + y % d;
    DivModUnique(x * d + y, d, x + y / d, y % d);
  }

  lemma MulMonotone(a: nat, b: nat, c: nat)
    requires a <= b
    ensures a * c <= b * c
  {
  }

  lemma MulDouble(x: nat, y: nat)
    ensures x * (2 * y) == 2 * (x * y)
  {
  }

  lemma Distributes(x: int, y: int, z: int)
    ensures (x + y) * z == x * z + y * z
  {
  }

  lemma MulAssociates(x: nat, y: nat, z: nat)
    ensures x * (y * z) == x * y * z
  {
  }

  lemma ModOfMultiple(v: nat, q: nat, p: nat)
    requires q > 0 && p > 0 && q * p > 0
    ensures v % (q * p) % p == v % p
  {
    var m := q * p;
    var a, r := v / m, v % m;
    var b, t := r / p, r % p;
    MulAssociates(a, q, p);
    Distributes(a * q, b, p);
    assert v == (a * q + b) * p + t;
    DivModUnique(v, p, a * q + b, t);
  }

  /** The lowest `n` bits of `v` in reverse order. */
  function Reverse(v: nat, n: nat): (r: nat)
    ensures r < Pow2(n)
  {
    if n == 0 then 0 else v % 2 * Pow2(n - 1) + Reverse(v / 2, n - 1)
  }

  /** A bit above becomes the lowest bit of the reversal. */
  lemma {:induction false} ReverseTop(v: nat, b: nat, n: nat)
    requires v < Pow2(n) && b <= 1
    ensures Reverse(v + b * Pow2(n), n + 1) == 2 * Reverse(v, n) + b
    decreases n
  {
    hide Reverse;
    if n == 0 {
      UnfoldReverse(b, 1);
      NoBits(v);
      NoBits(b / 2);
    } else {
      var half, w := Pow2(n - 1), v + b * Pow2(n);
      MulDouble(b, half);
      assert w % 2 == v % 2 && w / 2 == v / 2 + b * half;
      ReverseTop(v / 2, b, n - 1);
      MulDouble(v % 2, half);
      UnfoldReverse(w, n + 1);
      UnfoldReverse(v, n);
    }
  }

  lemma NoBits(v: nat)
    ensures Reverse(v, 0) == 0
  {
  }

  lemma UnfoldReverse(v: nat, n: nat)
    requires n > 0
    ensures Reverse(v, n) == v % 2 * Pow2(n - 1) + Reverse(v / 2, n - 1)
  {
  }

  lemma {:induction false} ReverseLow(v: nat, n: nat)
    ensures Reverse(v % Pow2(n), n) == Reverse(v, n)
    decreases n
  {
    hide Reverse, Pow2;
    if n == 0 {
      NoBits(v);
      NoBits(v % Pow2(0));
    } else {
      ReverseLow(v / 2, n - 1);
      HalfMod(v, n);
      UnfoldReverse(v, n);
      UnfoldReverse(v % Pow2(n), n);
    }
  }

  lemma {:induction false} ReverseTwice(v: nat, n: nat)
    requires v < Pow2(n)
    ensures Reverse(Reverse(v, n), n) == v
    decreases n
  {
    if n > 0 {
      ReverseTwice(v / 2, n - 1);
      ReverseTop(Reverse(v / 2, n - 1), v % 2, n - 1);
    }
  }

  /** The top `l` bits of a reversal are the reversal of the lowest `l` bits. */
  lemma {:induction false} ReversePrefix(v: nat, n: nat, l: nat)
    requires l <= n
    ensures Reverse(v, n) / Pow2(n - l) == Reverse(v % Pow2(l), l)
    decreases n
  {
    hide Reverse, Pow2;
    if l == 0 {
      NoBits(v % Pow2(0));
      DivModUnique(Reverse(v, n), Pow2(n), 0, Reverse(v, n));
    } else {
      ReversePrefix(v / 2, n - 1, l - 1);
      HalfMod(v, l);
      UnfoldReverse(v, n);
      UnfoldReverse(v % Pow2(l), l);
      Pow2Adds(l - 1, n - l);
      QuotientOfSum(v % 2, Pow2(l - 1), Pow2(n - l), Reverse(v / 2, n - 1));
    }
  }

  lemma QuotientOfSum(x: nat, y: nat, d: nat, z: nat)
    requires d > 0
    ensures (x * (y * d) + z) / d == x * y + z / d
  {
    MulAssociates(x, y, d);
    AddMultiple(x * y, d, z);
  }

  lemma HalfMod(v: nat, l: nat)
    requires l >= 1
    ensures v % Pow2(l) % 2 == v % 2 && v % Pow2(l) / 2 == v / 2 % Pow2(l - 1)
  {
    var h := Pow2(l - 1);
    var q, r := v / 2 / h, v / 2 % h;
    assert v == q * (2 * h) + (2 * r + v % 2);
    DivModUnique(v, 2 * h, q, 2 * r + v % 2);
  }

  lemma QuotientBelow(k: nat, a: nat, n: nat)
    requires k < a * n
    ensures n > 0 && k / n < a && k == k / n * n + k % n
  {
    if k / n >= a {
      MulMonotone(a, k / n, n);
    }
  }
}
