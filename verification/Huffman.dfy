/** Canonical Huffman codes as section 3.2.2 of RFC 1951 assigns them to code lengths, and
    the left-aligned view of them that stb_image's decoder searches. */
module Huffman {
  import opened Powers

  const MAX_BITS: nat := 15

  /** How many of the first `i` symbols have codes of length `l`. */
  function Rank(lens: seq<nat>, l: nat, i: nat): (r: nat)
    requires i <= |lens|
    ensures r <= i
  {
    if i == 0 then 0 else Rank(lens, l, i - 1) + if lens[i - 1] == l then 1 else 0
  }

  function Count(lens: seq<nat>, l: nat): nat {
    Rank(lens, l, |lens|)
  }

  /** The smallest code of length `l`. */
  function Start(lens: seq<nat>, l: nat): nat
    requires l >= 1
  {
    if l == 1 then 0 else 2 * (Start(lens, l - 1) + Count(lens, l - 1))
  }

  /** The code of symbol `i`: the codes of one length are consecutive, in symbol order. */
  function Code(lens: seq<nat>, i: nat): nat
    requires i < |lens| && lens[i] >= 1
  {
    Start(lens, lens[i]) + Rank(lens, lens[i], i)
  }

  ghost predicate Lengths(lens: seq<nat>) {
    forall i :: 0 <= i < |lens| ==> lens[i] <= MAX_BITS
  }

  /** The lengths are not over-subscribed: every code fits its length. */
  ghost predicate Fits(lens: seq<nat>) {
    forall l: nat :: 1 <= l <= MAX_BITS ==> FitsAt(lens, l)
  }

  predicate FitsAt(lens: seq<nat>, l: nat)
    requires l >= 1
  {
    Start(lens, l) + Count(lens, l) <= Pow2(l)
  }

  /** The first sixteen bits of a code string, first bit on top, begin with the code of `i`. */
  predicate Matches(lens: seq<nat>, i: nat, k: nat)
  {
    i < |lens| && 1 <= lens[i] <= MAX_BITS && k / Pow2(16 - lens[i]) == Code(lens, i)
  }

  // Ranks

  lemma {:induction false} RankGrows(lens: seq<nat>, l: nat, i: nat, j: nat)
    requires i <= j <= |lens|
    ensures Rank(lens, l, i) <= Rank(lens, l, j)
    ensures i < j && lens[i] == l ==> Rank(lens, l, i) < Rank(lens, l, j)
    decreases j - i
  {
    if i < j {
      RankGrows(lens, l, i, j - 1);
    }
  }

  /** Each rank below the count belongs to a symbol. */
  lemma {:induction false} SymbolOfRank(lens: seq<nat>, l: nat, r: nat, n: nat) returns (i: nat)
    requires n <= |lens| && r < Rank(lens, l, n)
    ensures i < n && lens[i] == l && Rank(lens, l, i) == r
    decreases n
  {
    if lens[n - 1] == l && Rank(lens, l, n - 1) == r {
      i := n - 1;
    } else {
      i := SymbolOfRank(lens, l, r, n - 1);
    }
  }

  lemma RankIsUnique(lens: seq<nat>, i: nat, j: nat)
    requires i < |lens| && j < |lens| && lens[i] == lens[j]
    requires Rank(lens, lens[i], i) == Rank(lens, lens[j], j)
    ensures i == j
  {
    var l := lens[i];
    if i < j {
      RankGrows(lens, l, i, j);
    } else {
      RankGrows(lens, l, j, i);
    }
  }

  // The left-aligned view: the codes of length `l` cover [End(l - 1), End(l)).

  function End(lens: seq<nat>, l: nat): nat
    requires l <= 16
  {
    if l == 0 then 0 else (Start(lens, l) + Count(lens, l)) * Pow2(16 - l)
  }

  lemma EndIsNextStart(lens: seq<nat>, l: nat)
    requires 1 <= l <= 16
    ensures End(lens, l - 1) == Start(lens, l) * Pow2(16 - l)
  {
    hide Count;
    if l > 1 {
      var n, p := Start(lens, l - 1) + Count(lens, l - 1), Pow2(16 - l);
      assert Pow2(17 - l) == 2 * p;
      assert Start(lens, l) == 2 * n && End(lens, l - 1) == n * (2 * p);
      DoubleEither(n, p);
    }
  }

  lemma DoubleEither(n: nat, p: nat)
    ensures n * (2 * p) == 2 * n * p
  {
  }

  lemma EndStep(lens: seq<nat>, l: nat)
    requires 1 <= l <= 16
    ensures End(lens, l - 1) <= End(lens, l)
  {
    EndIsNextStart(lens, l);
    MulMonotone(Start(lens, l), Start(lens, l) + Count(lens, l), Pow2(16 - l));
  }

  lemma {:induction false} EndGrows(lens: seq<nat>, a: nat, b: nat)
    requires a <= b <= 16
    ensures End(lens, a) <= End(lens, b)
    decreases b - a
  {
    if a < b {
      EndStep(lens, b);
      EndGrows(lens, a, b - 1);
    }
  }

  /** A string that begins with a code of length `l` lies in the range of that length. */
  lemma MatchInRange(lens: seq<nat>, i: nat, k: nat)
    requires Matches(lens, i, k)
    ensures End(lens, lens[i] - 1) <= k < End(lens, lens[i])
  {
    hide Start, Rank, Pow2;
    var l := lens[i];
    var q, c := Pow2(16 - l), Code(lens, i);
    EndIsNextStart(lens, l);
    RankGrows(lens, l, i, |lens|);
    DivBounds(k, q);
    MulMonotone(Start(lens, l), c, q);
    MulMonotone(c + 1, Start(lens, l) + Count(lens, l), q);
  }

  /** A string in the range of length `l` begins with a code of that length. */
  lemma RangeHasMatch(lens: seq<nat>, l: nat, k: nat) returns (i: nat)
    requires 1 <= l <= MAX_BITS && End(lens, l - 1) <= k < End(lens, l)
    ensures Matches(lens, i, k) && lens[i] == l
    ensures k / Pow2(16 - l) == Start(lens, l) + Rank(lens, l, i)
  {
    var q := Pow2(16 - l);
    EndIsNextStart(lens, l);
    DivBounds(k, q);
    var c := k / q;
    QuotientBounds(k, q, Start(lens, l), Start(lens, l) + Count(lens, l));
    i := SymbolOfRank(lens, l, c - Start(lens, l), |lens|);
  }

  lemma QuotientBounds(k: nat, q: nat, lo: nat, hi: nat)
    requires q > 0 && lo * q <= k < hi * q
    ensures lo <= k / q < hi
  {
    DivBounds(k, q);
    MulBounds(k / q - hi, q);
    MulBounds(k / q + 1 - lo, q);
    assert (k / q - hi) * q == k / q * q - hi * q;
    assert (k / q + 1 - lo) * q == (k / q + 1) * q - lo * q;
  }

  /** The codes are prefix-free: no bit string begins with two of them. */
  lemma PrefixFree(lens: seq<nat>, i: nat, j: nat, k: nat)
    requires Matches(lens, i, k) && Matches(lens, j, k)
    ensures i == j
  {
    MatchInRange(lens, i, k);
    MatchInRange(lens, j, k);
    if lens[i] < lens[j] {
      EndGrows(lens, lens[i], lens[j] - 1);
    } else if lens[j] < lens[i] {
      EndGrows(lens, lens[j], lens[i] - 1);
    } else {
      RankIsUnique(lens, i, j);
    }
  }

  // Slots: the symbols in the order of their codes

  /** How many symbols have shorter codes than `l`. */
  function Before(lens: seq<nat>, l: nat): nat
    requires l >= 1
  {
    if l == 1 then 0 else Before(lens, l - 1) + Count(lens, l - 1)
  }

  function Slot(lens: seq<nat>, i: nat): nat
    requires i < |lens| && lens[i] >= 1
  {
    Before(lens, lens[i]) + Rank(lens, lens[i], i)
  }

  lemma {:induction false} BeforeGrows(lens: seq<nat>, a: nat, b: nat)
    requires 1 <= a < b
    ensures Before(lens, a) + Count(lens, a) <= Before(lens, b)
    decreases b - a
  {
    if a + 1 < b {
      BeforeGrows(lens, a, b - 1);
    }
  }

  lemma SlotIsUnique(lens: seq<nat>, i: nat, j: nat)
    requires i < |lens| && j < |lens| && lens[i] >= 1 && lens[j] >= 1
    requires Slot(lens, i) == Slot(lens, j)
    ensures i == j
  {
    RankGrows(lens, lens[i], i, |lens|);
    RankGrows(lens, lens[j], j, |lens|);
    if lens[i] < lens[j] {
      BeforeGrows(lens, lens[i], lens[j]);
    } else if lens[j] < lens[i] {
      BeforeGrows(lens, lens[j], lens[i]);
    } else {
      RankIsUnique(lens, i, j);
    }
  }

  /** How many of the first `n` symbols have a code at all of length below `l`. */
  function Shorter(lens: seq<nat>, l: nat, n: nat): nat
    requires n <= |lens|
  {
    if n == 0 then 0 else Shorter(lens, l, n - 1) + if 1 <= lens[n - 1] < l then 1 else 0
  }

  lemma {:induction false} ShorterSplits(lens: seq<nat>, l: nat, n: nat)
    requires l >= 1 && n <= |lens|
    ensures Shorter(lens, l + 1, n) == Shorter(lens, l, n) + Rank(lens, l, n)
    ensures Shorter(lens, l, n) <= n
    decreases n
  {
    if n > 0 {
      ShorterSplits(lens, l, n - 1);
    }
  }

  lemma {:induction false} BeforeIsShorter(lens: seq<nat>, l: nat)
    requires l >= 1
    ensures Before(lens, l) == Shorter(lens, l, |lens|) <= |lens|
    decreases l
  {
    ShorterSplits(lens, l, |lens|);
    if l == 1 {
      NoneShorter(lens, |lens|);
    } else {
      BeforeIsShorter(lens, l - 1);
      ShorterSplits(lens, l - 1, |lens|);
    }
  }

  lemma {:induction false} NoneShorter(lens: seq<nat>, n: nat)
    requires n <= |lens|
    ensures Shorter(lens, 1, n) == 0
    decreases n
  {
    if n > 0 {
      NoneShorter(lens, n - 1);
    }
  }

  /** There are no more slots than symbols. */
  lemma SlotBounded(lens: seq<nat>, i: nat)
    requires i < |lens| && lens[i] >= 1
    ensures Slot(lens, i) < |lens|
  {
    RankGrows(lens, lens[i], i, |lens|);
    BeforeIsShorter(lens, lens[i] + 1);
  }
}
