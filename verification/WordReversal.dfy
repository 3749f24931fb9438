/** The reversal of the bits of a word. */
module WordReversal {
  import opened Remainders

  function Double(c: word): word {
    c << 1
  }

  predicate Top(c: word) {
    c & 0x80000000 != 0
  }

  function Or(c: word, d: word): word {
    c | d
  }

  function Shl(v: word, n: nat): word
    decreases n
  {
    if n == 0 then v else Double(Shl(v, n - 1))
  }

  predicate BitAt(v: word, k: nat)
    decreases k
  {
    if k == 0 then Odd(v) else BitAt(Half(v), k - 1)
  }

  /** The lowest `n` bits of `v` in reverse order. */
  function Mirror(v: word, n: nat): word
    decreases n
  {
    if n == 0 then 0 else Or(if Odd(v) then Shl(1, n - 1) else 0, Mirror(Half(v), n - 1))
  }

  lemma {:induction false} MirrorLast(v: word, n: nat)
    ensures Mirror(v, n + 1) == Or(Double(Mirror(v, n)), if BitAt(v, n) then 1 else 0)
    decreases n
  {
    hide Odd, Half, Double, Or;
    OrOfZero(0);
    if n == 0 {
      OrOfZero(if Odd(v) then 1 else 0);
    } else {
      MirrorLast(Half(v), n - 1);
      DoubleOfOr(Shl(1, n - 1), Mirror(Half(v), n - 1));
      DoubleOfOr(0, Mirror(Half(v), n - 1));
      OrAssociates(if Odd(v) then Shl(1, n) else 0, Double(Mirror(Half(v), n - 1)), if BitAt(v, n) then 1 else 0);
    }
  }

  lemma OrOfZero(c: word)
    ensures Or(c, 0) == c && Or(0, c) == c && Double(0) == 0 && Half(0) == 0 && !Odd(0)
  {
  }

  lemma DoubleOfOr(c: word, d: word)
    ensures Double(Or(c, d)) == Or(Double(c), Double(d))
  {
  }

  lemma OrAssociates(x: word, y: word, z: word)
    ensures Or(Or(x, y), z) == Or(x, Or(y, z))
  {
  }

  /** `v` is less than the `n`th power of two. */
  predicate Fits(v: word, n: nat)
    decreases n
  {
    if n == 0 then v == 0 else Fits(Half(v), n - 1)
  }

  lemma {:induction false} FitsNot(v: word, t: word, n: nat)
    requires AtLeast(v, t) && Survives(t, n)
    ensures !Fits(v, n)
    decreases n
  {
    hide Half, AtLeast;
    if n == 0 {
      AtLeastNonzero(v, t);
    } else {
      HalvesInOrder(v, t);
      FitsNot(Half(v), Half(t), n - 1);
    }
  }

  lemma AtLeastNonzero(v: word, t: word)
    ensures AtLeast(v, t) && t != 0 ==> v != 0
  {
  }

  lemma HalvesInOrder(v: word, t: word)
    ensures AtLeast(v, t) ==> AtLeast(Half(v), Half(t))
  {
  }

  lemma FitsBelowTop(v: word, n: nat)
    requires Fits(v, n) && n <= 31
    ensures !Top(v)
  {
    hide Half, Fits, Survives, AtLeast;
    TopIsLarge(v);
    SurvivesAll();
    SurvivesFewer(0x80000000, n, 31);
    if AtLeast(v, 0x80000000) {
      FitsNot(v, 0x80000000, n);
    }
  }

  lemma TopIsLarge(v: word)
    ensures Top(v) == AtLeast(v, 0x80000000)
  {
  }

  lemma Appended(c: word, bit: bool)
    requires !Top(c)
    ensures var d := Or(Double(c), if bit then 1 else 0); Half(d) == c && Odd(d) == bit
  {
  }

  lemma {:induction false} MirrorFits(v: word, n: nat)
    requires n <= 32
    ensures Fits(Mirror(v, n), n)
  {
    if n > 0 {
      MirrorFits(v, n - 1);
      MirrorLast(v, n - 1);
      FitsBelowTop(Mirror(v, n - 1), n - 1);
      Appended(Mirror(v, n - 1), BitAt(v, n - 1));
    }
  }

  /** The lowest `n` bits of `v`. */
  function LowBits(v: word, n: nat): word
    decreases n
  {
    if n == 0 then 0 else Or(if BitAt(v, n - 1) then Shl(1, n - 1) else 0, LowBits(v, n - 1))
  }

  /** Reversing twice keeps the lowest `n` bits. */
  lemma {:induction false} MirrorTwice(v: word, n: nat)
    requires n <= 32
    ensures Mirror(Mirror(v, n), n) == LowBits(v, n)
  {
    hide Odd, Half, Double, Or, Fits, Top, BitAt, Shl;
    if n > 0 {
      MirrorTwice(v, n - 1);
      MirrorLast(v, n - 1);
      MirrorFits(v, n - 1);
      FitsBelowTop(Mirror(v, n - 1), n - 1);
      Appended(Mirror(v, n - 1), BitAt(v, n - 1));
    }
  }

  /** Doubling shifts the reversal down. */
  lemma {:induction false} MirrorOfDouble(v: word, n: nat)
    requires n <= 31
    ensures Mirror(Double(v), n + 1) == Mirror(v, n)
  {
    hide Odd, Half, Double, Or, Top, BitAt, Shl, Agree;
    HalfOfDouble(v);
    AgreeFewer(Half(Double(v)), v, n, 31);
    MirrorAgrees(Half(Double(v)), v, n);
    OrOfZero(Mirror(v, n));
  }

  predicate Agree(v: word, w: word, n: nat)
    decreases n
  {
    n == 0 || (Odd(v) == Odd(w) && Agree(Half(v), Half(w), n - 1))
  }

  lemma {:induction false} AgreeFewer(v: word, w: word, m: nat, n: nat)
    requires m <= n && Agree(v, w, n)
    ensures Agree(v, w, m)
    decreases m
  {
    hide Odd, Half;
    if m > 0 {
      AgreeFewer(Half(v), Half(w), m - 1, n - 1);
    }
  }

  lemma {:induction false} MirrorAgrees(v: word, w: word, n: nat)
    requires Agree(v, w, n)
    ensures Mirror(v, n) == Mirror(w, n)
    decreases n
  {
    hide Odd, Half, Or, Shl;
    if n > 0 {
      MirrorAgrees(Half(v), Half(w), n - 1);
    }
  }

  function And(v: word, w: word): word {
    v & w
  }

  predicate Ones(m: word, n: nat)
    decreases n
  {
    n == 0 || (Odd(m) && Ones(Half(m), n - 1))
  }

  lemma {:induction false} MaskAgrees(v: word, m: word, n: nat)
    requires Ones(m, n)
    ensures Agree(And(v, m), v, n)
    decreases n
  {
    hide Odd, Half, And;
    if n > 0 {
      MaskStep(v, m);
      MaskAgrees(Half(v), Half(m), n - 1);
    }
  }

  lemma MaskStep(v: word, m: word)
    ensures Half(And(v, m)) == And(Half(v), Half(m))
    ensures Odd(And(v, m)) == (Odd(v) && Odd(m))
  {
  }

  lemma HalfOfDouble(v: word)
    ensures Agree(Half(Double(v)), v, 31) && !Odd(Double(v))
  {
    hide Agree, Ones, And, Half, Double, Odd;
    DoubledBits(v);
    AllOnes();
    MaskAgrees(v, 0x7FFFFFFF, 31);
  }

  lemma DoubledBits(v: word)
    ensures Half(Double(v)) == And(v, 0x7FFFFFFF) && !Odd(Double(v))
  {
  }

  lemma AllOnes()
    ensures Ones(0x7FFFFFFF, 31)
  {
    assert Ones(0x7F, 7);
    assert Ones(0x7FFF, 15);
    assert Ones(0x7FFFFF, 23);
  }

  lemma {:induction false} MirrorOfShift(v: word, k: nat, n: nat)
    requires n + k <= 32
    ensures Mirror(Shl(v, k), n + k) == Mirror(v, n)
  {
    hide Mirror, Double;
    if k > 0 {
      MirrorOfShift(v, k - 1, n);
      MirrorOfDouble(Shl(v, k - 1), n + k - 1);
    }
  }

  lemma {:induction false} MirrorOfSum(v: word, w: word, n: nat)
    ensures Mirror(Sum(v, w), n) == Sum(Mirror(v, n), Mirror(w, n))
  {
    hide Odd, Half, Double, Or, Sum, BitAt;
    if n == 0 {
      OwnSum(0);
    } else {
      MirrorOfSum(v, w, n - 1);
      MirrorLast(v, n - 1);
      MirrorLast(w, n - 1);
      MirrorLast(Sum(v, w), n - 1);
      BitOfSum(v, w, n - 1);
      AppendedSum(Mirror(v, n - 1), Mirror(w, n - 1), BitAt(v, n - 1), BitAt(w, n - 1));
    }
  }

  lemma {:induction false} BitOfSum(v: word, w: word, k: nat)
    ensures BitAt(Sum(v, w), k) == (BitAt(v, k) != BitAt(w, k))
    decreases k
  {
    hide Odd, Half, Sum;
    DifferenceOfParts(v, w, false, false);
    if k > 0 {
      BitOfSum(Half(v), Half(w), k - 1);
    }
  }

  lemma AppendedSum(c: word, d: word, a: bool, b: bool)
    ensures Sum(Or(Double(c), if a then 1 else 0), Or(Double(d), if b then 1 else 0))
            == Or(Double(Sum(c, d)), if a != b then 1 else 0)
  {
    hide Sum, Double, Or;
    OrIsSum(c, a);
    OrIsSum(d, b);
    OrIsSum(Sum(c, d), a != b);
    DoubleOfSum(c, d);
    Exchange(Double(c), Double(d), if a then 1 else 0, if b then 1 else 0);
    OwnSum(0);
    OwnSum(1);
  }

  lemma OrIsSum(c: word, bit: bool)
    ensures Or(Double(c), if bit then 1 else 0) == Sum(Double(c), if bit then 1 else 0)
  {
    hide Sum, Double, Or;
    DoubledBits(c);
    OrOne(Double(c));
    OrOfZero(Double(c));
    OwnSum(Double(c));
  }

  lemma OrOne(d: word)
    requires !Odd(d)
    ensures Or(d, 1) == Sum(d, 1)
  {
  }

  lemma DoubleOfSum(c: word, d: word)
    ensures Double(Sum(c, d)) == Sum(Double(c), Double(d))
  {
  }

  /** A bit is set when the power of two shares it. */
  lemma {:induction false} BitOfPower(v: word, k: nat)
    requires k <= 31
    ensures BitAt(v, k) == (And(v, Shl(1, k)) != 0)
    decreases k
  {
    hide Odd, Half, And, Double;
    if k == 0 {
      LowestBit(v);
    } else {
      BitOfPower(Half(v), k - 1);
      PowerFits(k - 1);
      FitsBelowTop(Shl(1, k - 1), k);
      HalfOfMask(v, Shl(1, k - 1));
    }
  }

  lemma LowestBit(v: word)
    ensures Odd(v) == (And(v, 1) != 0)
  {
  }

  lemma HalfOfMask(v: word, m: word)
    requires !Top(m)
    ensures (And(v, Double(m)) != 0) == (And(Half(v), m) != 0)
  {
  }

  lemma {:induction false} PowerFits(k: nat)
    requires k <= 31
    ensures Fits(Shl(1, k), k + 1)
  {
    hide Half, Double, Top;
    if k == 0 {
      assert Half(1) == 0 by { HalfOfOne(); }
    } else {
      PowerFits(k - 1);
      FitsBelowTop(Shl(1, k - 1), k);
      Undouble(Shl(1, k - 1));
    }
  }

  lemma HalfOfOne()
    ensures Half(1) == 0
  {
  }

  lemma Undouble(v: word)
    requires !Top(v)
    ensures Half(Double(v)) == v
  {
  }
}
