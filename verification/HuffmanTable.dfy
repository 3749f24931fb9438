/** The decoding tables of stb_image's zlib decoder, and why looking a code up in them finds
    the symbol whose code the input begins with. */
module HuffmanTable {
  import opened Powers
  import opened BitReversal
  import opened Huffman

  const ZFAST_BITS: nat := 9
  const FAST_SIZE: nat := 512
  const NO_ENTRY: nat := 0xffff
  const MAX_SYMBOLS: nat := 288

  /** The next nine input bits, first bit lowest, begin with the short code of symbol `i`. */
  ghost predicate FastHit(lens: seq<nat>, idx: nat, i: nat) {
    i < |lens| && 1 <= lens[i] <= ZFAST_BITS && idx % Pow2(lens[i]) == Reverse(Code(lens, i), lens[i])
  }

  /** Entry `idx` of the fast table, after the first `n` symbols are entered. */
  ghost predicate FastEntry(lens: seq<nat>, n: nat, idx: nat, entry: nat) {
    || (entry == NO_ENTRY && forall i: nat :: i < n ==> !FastHit(lens, idx, i))
    || exists i: nat :: i < n && FastHit(lens, idx, i) && entry == Slot(lens, i)
  }

  class ZHuffman {
    var fast: seq<nat>
    var firstcode: seq<nat>
    var maxcode: seq<nat>
    var firstsymbol: seq<nat>
    var size: seq<nat>
    var value: seq<nat>

    constructor ()
      ensures Sized()
    {
      fast := seq(FAST_SIZE, _ => 0);
      firstcode := seq(16, _ => 0);
      maxcode := seq(17, _ => 0);
      firstsymbol := seq(16, _ => 0);
      size := seq(MAX_SYMBOLS, _ => 0);
      value := seq(MAX_SYMBOLS, _ => 0);
    }

    ghost predicate Sized()
      reads this
    {
      && |fast| == FAST_SIZE && |firstcode| == 16 && |maxcode| == 17 && |firstsymbol| == 16
      && |size| == MAX_SYMBOLS && |value| == MAX_SYMBOLS
    }

    ghost predicate Represents(lens: seq<nat>)
      reads this
    {
      && Sized() && |lens| <= MAX_SYMBOLS
      && Lengths(lens) && Fits(lens)
      && RangesFor(lens, firstcode, maxcode, firstsymbol)
      && SymbolsFor(lens, |lens|, size, value)
      && FastFor(lens, |lens|, fast)
    }

    /** Builds the tables. Succeeds exactly when the lengths are not over-subscribed. */
    method Build(sizelist: seq<nat>) returns (ok: bool)
      requires Sized() && Lengths(sizelist) && |sizelist| <= MAX_SYMBOLS
      modifies this
      ensures Sized()
      ensures ok == Fits(sizelist)
      ensures ok ==> Represents(sizelist)
    {
      hide Fits, RangesFor, SymbolsFor, FastFor, FitsAt, Lengths;
      fast := seq(FAST_SIZE, _ => NO_ENTRY);
      var sizes := CountSizes(sizelist);
      var nextCode;
      ok, nextCode := BuildRanges(sizelist, sizes);
      if !ok {
        return;
      }
      NothingEntered(sizelist, fast, size, value);
      for i := 0 to |sizelist|
        invariant Sized()
        invariant RangesFor(sizelist, firstcode, maxcode, firstsymbol)
        invariant NextCodes(sizelist, i, nextCode)
        invariant SymbolsFor(sizelist, i, size, value)
        invariant FastFor(sizelist, i, fast)
      {
        var s := sizelist[i];
        if s > 0 {
          EntersAt(sizelist, i, nextCode, firstcode, maxcode, firstsymbol);
          var c := nextCode[s] - firstcode[s] + firstsymbol[s];
          EnterSymbol(sizelist, i, size, value);
          size := size[c := s];
          value := value[c := i];
          if s <= ZFAST_BITS {
            EnterFast(sizelist, i, c, nextCode[s]);
          } else {
            SkipFast(sizelist, i, fast);
          }
          NextCodeStep(sizelist, i, nextCode);
          nextCode := nextCode[s := nextCode[s] + 1];
        } else {
          SkipSymbol(sizelist, i, nextCode, size, value, fast);
        }
      }
    }

    /** The first half of the construction: code ranges, and the check on the lengths. */
    method BuildRanges(sizelist: seq<nat>, sizes: seq<nat>) returns (ok: bool, nextCode: seq<nat>)
      requires Sized() && |sizes| == 17
      requires forall l :: 1 <= l <= MAX_BITS ==> sizes[l] == Count(sizelist, l)
      modifies this`firstcode, this`maxcode, this`firstsymbol
      ensures Sized()
      ensures ok == Fits(sizelist)
      ensures ok ==> RangesFor(sizelist, firstcode, maxcode, firstsymbol) && NextCodes(sizelist, 0, nextCode)
    {
      hide Fits, Pow2, RangesUpTo, Start, Before, End, Count;
      var k, code := 0, 0;
      nextCode := firstcode;
      RangesStart(sizelist, firstcode, maxcode, firstsymbol);
      for i := 1 to 16
        invariant Sized() && |nextCode| == 16
        invariant code == Start(sizelist, i) && k == Before(sizelist, i)
        invariant i > 1 ==> FitsAt(sizelist, i - 1)
        invariant RangesUpTo(sizelist, i, nextCode, maxcode, firstsymbol)
        invariant RangesUpTo(sizelist, i, firstcode, maxcode, firstsymbol)
      {
        StartFits(sizelist, i);
        RangeStep(sizelist, i, nextCode, maxcode, firstsymbol);
        RangeStep(sizelist, i, firstcode, maxcode, firstsymbol);
        nextCode := nextCode[i := code];
        firstcode := firstcode[i := code];
        firstsymbol := firstsymbol[i := k];
        code := code + sizes[i];
        if sizes[i] > 0 && code - 1 >= Pow2(i) {
          DoesNotFit(sizelist, i);
          ok := false;
          return;
        }
        maxcode := maxcode[i := code * Pow2(16 - i)];
        code := code * 2;
        k := k + sizes[i];
      }
      RangesDone(sizelist, nextCode, firstcode, maxcode, firstsymbol);
      maxcode := maxcode[16 := 0x1_0000];
      ok := true;
    }

    /** Enters a short code at every index whose low bits are the reversed code. */
    method EnterFast(lens: seq<nat>, n: nat, c: nat, code: nat)
      requires |fast| == FAST_SIZE && FastFor(lens, n, fast)
      requires n < |lens| && 1 <= lens[n] <= ZFAST_BITS && c == Slot(lens, n) && code == Code(lens, n)
      modifies this`fast
      ensures |fast| == FAST_SIZE && FastFor(lens, n + 1, fast)
    {
      hide FastFor, FilledBelow, Slot, Code, Reverse, Pow2, WordOf, BitReverse;
      var s := lens[n];
      BitReverseReverses(code, s);
      var step, r := Pow2(s), BitReverse(WordOf(code, 16), s);
      var k2 := r;
      ghost var before := fast;
      ModBelow(r, step);
      FillStart(before, step, r, c);
      while k2 < FAST_SIZE
        invariant |fast| == FAST_SIZE && k2 % step == r
        invariant FilledBelow(before, fast, k2, step, r, c)
      {
        FillStep(before, fast, k2, step, r, c);
        fast := fast[k2 := c];
        ModNext(k2, step);
        k2 := k2 + step;
      }
      FilledAll(lens, n, before, fast, k2, c);
    }
  }

  /** Every `step`-th entry below `k2`, from `r` on, is `c`; the others are as before. */
  ghost predicate FilledBelow(before: seq<nat>, fast: seq<nat>, k2: nat, step: nat, r: nat, c: nat)
    requires step > 0
  {
    && |fast| == |before| == FAST_SIZE
    && forall idx: nat :: idx < FAST_SIZE ==> fast[idx] == if idx < k2 && idx % step == r then c else before[idx]
  }

  lemma FillStart(before: seq<nat>, step: nat, r: nat, c: nat)
    requires |before| == FAST_SIZE && r < step
    ensures FilledBelow(before, before, r, step, r, c)
  {
    forall idx: nat | idx < r
      ensures idx % step != r
    {
      ModBelow(idx, step);
    }
  }

  lemma FillStep(before: seq<nat>, fast: seq<nat>, k2: nat, step: nat, r: nat, c: nat)
    requires step > 0 && k2 < FAST_SIZE && k2 % step == r
    requires FilledBelow(before, fast, k2, step, r, c)
    ensures FilledBelow(before, fast[k2 := c], k2 + step, step, r, c)
  {
    forall idx: nat | k2 < idx < k2 + step
      ensures idx % step != r
    {
      ModBetween(k2, idx, step);
    }
  }

  lemma FilledAll(lens: seq<nat>, n: nat, before: seq<nat>, fast: seq<nat>, k2: nat, c: nat)
    requires n < |lens| && 1 <= lens[n] <= ZFAST_BITS && c == Slot(lens, n)
    requires FastFor(lens, n, before) && k2 >= FAST_SIZE
    requires FilledBelow(before, fast, k2, Pow2(lens[n]), Reverse(Code(lens, n), lens[n]), c)
    ensures FastFor(lens, n + 1, fast)
  {
    hide Slot, Code, Reverse, Pow2;
    forall idx: nat | idx < FAST_SIZE
      ensures FastEntry(lens, n + 1, idx, fast[idx])
    {
      assert FastEntry(lens, n, idx, before[idx]);
      if idx % Pow2(lens[n]) == Reverse(Code(lens, n), lens[n]) {
        assert FastHit(lens, idx, n);
      } else {
        assert !FastHit(lens, idx, n);
      }
    }
  }

  method CountSizes(sizelist: seq<nat>) returns (sizes: seq<nat>)
    requires Lengths(sizelist)
    ensures |sizes| == 17
    ensures forall l :: 1 <= l <= MAX_BITS ==> sizes[l] == Count(sizelist, l)
  {
    sizes := seq(17, _ => 0);
    for i := 0 to |sizelist|
      invariant |sizes| == 17
      invariant forall l :: 0 <= l <= MAX_BITS ==> sizes[l] == Rank(sizelist, l, i)
    {
      sizes := sizes[sizelist[i] := sizes[sizelist[i]] + 1];
    }
    sizes := sizes[0 := 0];
  }

  // What the parts of the table hold

  ghost predicate RangesFor(lens: seq<nat>, firstcode: seq<nat>, maxcode: seq<nat>, firstsymbol: seq<nat>) {
    && |firstcode| == 16 && |maxcode| == 17 && |firstsymbol| == 16
    && (forall l :: 1 <= l <= MAX_BITS ==>
          firstcode[l] == Start(lens, l) && firstsymbol[l] == Before(lens, l) && maxcode[l] == End(lens, l))
    && maxcode[16] == 0x1_0000
  }

  /** The ranges of the lengths below `n`, none of them over-subscribed. */
  ghost predicate RangesUpTo(lens: seq<nat>, n: nat, firstcode: seq<nat>, maxcode: seq<nat>, firstsymbol: seq<nat>) {
    && |firstcode| == 16 && |maxcode| == 17 && |firstsymbol| == 16 && n <= 16
    && forall l: nat :: 1 <= l < n ==>
        && FitsAt(lens, l) && firstcode[l] == Start(lens, l)
        && firstsymbol[l] == Before(lens, l) && maxcode[l] == End(lens, l)
  }

  lemma RangesStart(lens: seq<nat>, firstcode: seq<nat>, maxcode: seq<nat>, firstsymbol: seq<nat>)
    requires |firstcode| == 16 && |maxcode| == 17 && |firstsymbol| == 16
    ensures RangesUpTo(lens, 1, firstcode, maxcode, firstsymbol)
    ensures Start(lens, 1) == 0 && Before(lens, 1) == 0
  {
  }

  lemma RangeStep(lens: seq<nat>, l: nat, firstcode: seq<nat>, maxcode: seq<nat>, firstsymbol: seq<nat>)
    requires RangesUpTo(lens, l, firstcode, maxcode, firstsymbol) && 1 <= l <= MAX_BITS
    ensures FitsAt(lens, l) ==>
              RangesUpTo(lens, l + 1, firstcode[l := Start(lens, l)], maxcode[l := End(lens, l)],
                         firstsymbol[l := Before(lens, l)])
    ensures End(lens, l) == (Start(lens, l) + Count(lens, l)) * Pow2(16 - l)
    ensures Start(lens, l + 1) == (Start(lens, l) + Count(lens, l)) * 2
            && Before(lens, l + 1) == Before(lens, l) + Count(lens, l)
  {
    hide Pow2, Count;
  }

  lemma RangesDone(lens: seq<nat>, nextCode: seq<nat>, firstcode: seq<nat>, maxcode: seq<nat>, firstsymbol: seq<nat>)
    requires RangesUpTo(lens, 16, nextCode, maxcode, firstsymbol)
             && RangesUpTo(lens, 16, firstcode, maxcode, firstsymbol)
    ensures Fits(lens)
    ensures RangesFor(lens, firstcode, maxcode[16 := 0x1_0000], firstsymbol) && NextCodes(lens, 0, nextCode)
  {
    hide Start, Before, End, FitsAt;
  }

  ghost predicate SymbolsFor(lens: seq<nat>, n: nat, size: seq<nat>, value: seq<nat>) {
    && n <= |lens| <= |size| == |value|
    && forall i: nat :: i < n && lens[i] >= 1 ==> SymbolAt(lens, i, size, value)
  }

  ghost predicate SymbolAt(lens: seq<nat>, i: nat, size: seq<nat>, value: seq<nat>)
    requires i < |lens| && lens[i] >= 1
  {
    Slot(lens, i) < |size| && Slot(lens, i) < |value| && size[Slot(lens, i)] == lens[i] && value[Slot(lens, i)] == i
  }

  ghost predicate FastFor(lens: seq<nat>, n: nat, fast: seq<nat>) {
    && |fast| == FAST_SIZE
    && forall idx: nat :: idx < FAST_SIZE ==> FastEntry(lens, n, idx, fast[idx])
  }

  ghost predicate NextCodes(lens: seq<nat>, n: nat, nextCode: seq<nat>) {
    && |nextCode| == 16 && n <= |lens|
    && forall l :: 1 <= l <= MAX_BITS ==> nextCode[l] == Start(lens, l) + Rank(lens, l, n)
  }

  // Steps of the construction

  lemma StartFits(lens: seq<nat>, l: nat)
    requires l >= 1 && (l > 1 ==> FitsAt(lens, l - 1))
    ensures Start(lens, l) <= Pow2(l)
  {
  }

  lemma DoesNotFit(lens: seq<nat>, l: nat)
    requires 1 <= l <= MAX_BITS && !FitsAt(lens, l)
    ensures !Fits(lens)
  {
  }

  lemma NothingEntered(lens: seq<nat>, fast: seq<nat>, size: seq<nat>, value: seq<nat>)
    requires |fast| == FAST_SIZE && (forall idx :: 0 <= idx < FAST_SIZE ==> fast[idx] == NO_ENTRY)
    requires |lens| <= |size| == |value|
    ensures FastFor(lens, 0, fast) && SymbolsFor(lens, 0, size, value)
  {
  }

  lemma EntersAt(lens: seq<nat>, i: nat, nextCode: seq<nat>, firstcode: seq<nat>, maxcode: seq<nat>,
                 firstsymbol: seq<nat>)
    requires NextCodes(lens, i, nextCode) && RangesFor(lens, firstcode, maxcode, firstsymbol)
    requires Lengths(lens) && i < |lens| && lens[i] >= 1
    ensures lens[i] <= MAX_BITS
    ensures nextCode[lens[i]] == Code(lens, i) >= firstcode[lens[i]]
    ensures nextCode[lens[i]] - firstcode[lens[i]] + firstsymbol[lens[i]] == Slot(lens, i) < |lens|
  {
    SlotBounded(lens, i);
  }

  lemma EnterSymbol(lens: seq<nat>, i: nat, size: seq<nat>, value: seq<nat>)
    requires SymbolsFor(lens, i, size, value) && i < |lens| && lens[i] >= 1
    ensures Slot(lens, i) < |lens|
    ensures SymbolsFor(lens, i + 1, size[Slot(lens, i) := lens[i]], value[Slot(lens, i) := i])
  {
    hide Slot;
    SlotBounded(lens, i);
    var size', value' := size[Slot(lens, i) := lens[i]], value[Slot(lens, i) := i];
    forall j: nat | j < i + 1 && lens[j] >= 1
      ensures SymbolAt(lens, j, size', value')
    {
      if j < i {
        assert SymbolAt(lens, j, size, value);
        if Slot(lens, i) == Slot(lens, j) {
          SlotIsUnique(lens, i, j);
        }
      }
    }
  }

  lemma NextCodeStep(lens: seq<nat>, i: nat, nextCode: seq<nat>)
    requires NextCodes(lens, i, nextCode) && i < |lens| && 1 <= lens[i] <= MAX_BITS
    ensures NextCodes(lens, i + 1, nextCode[lens[i] := nextCode[lens[i]] + 1])
  {
  }

  lemma SkipFast(lens: seq<nat>, i: nat, fast: seq<nat>)
    requires FastFor(lens, i, fast) && i < |lens| && (lens[i] == 0 || lens[i] > ZFAST_BITS)
    ensures FastFor(lens, i + 1, fast)
  {
    forall idx: nat | idx < FAST_SIZE
      ensures FastEntry(lens, i + 1, idx, fast[idx])
    {
      assert FastEntry(lens, i, idx, fast[idx]);
      assert !FastHit(lens, idx, i);
    }
  }

  lemma SkipSymbol(lens: seq<nat>, i: nat, nextCode: seq<nat>, size: seq<nat>, value: seq<nat>, fast: seq<nat>)
    requires NextCodes(lens, i, nextCode) && SymbolsFor(lens, i, size, value) && FastFor(lens, i, fast)
    requires i < |lens| && lens[i] == 0
    ensures NextCodes(lens, i + 1, nextCode) && SymbolsFor(lens, i + 1, size, value) && FastFor(lens, i + 1, fast)
  {
    SkipFast(lens, i, fast);
  }

  lemma ModBelow(r: nat, d: nat)
    requires r < d
    ensures r % d == r
  {
    DivModUnique(r, d, 0, r);
  }

  lemma ModNext(k: nat, d: nat)
    requires d > 0
    ensures (k + d) % d == k % d
  {
    DivModUnique(k + d, d, k / d + 1, k % d);
  }

  lemma ModBetween(k: nat, j: nat, d: nat)
    requires d > 0 && k < j < k + d
    ensures j % d != k % d
  {
    var q := j / d - k / d;
    assert j - k == q * d + (j % d - k % d);
    MulBounds(q, d);
  }

  // Looking up

  /** The symbol whose code a string of sixteen bits begins with, or -1. */
  ghost function Symbol(lens: seq<nat>, k: nat): (sym: int)
    ensures sym == -1 || (0 <= sym && Matches(lens, sym, k))
    ensures sym == -1 ==> forall i: nat :: !Matches(lens, i, k)
  {
    if i: nat :| Matches(lens, i, k) then i else -1
  }

  lemma SymbolIs(lens: seq<nat>, k: nat, i: nat)
    requires Matches(lens, i, k)
    ensures Symbol(lens, k) == i
  {
    PrefixFree(lens, i, Symbol(lens, k), k);
  }

  lemma CodeFits(lens: seq<nat>, i: nat)
    requires Fits(lens) && i < |lens| && 1 <= lens[i] <= MAX_BITS
    ensures Code(lens, i) < Pow2(lens[i])
  {
    assert FitsAt(lens, lens[i]);
    RankGrows(lens, lens[i], i, |lens|);
  }

  /** Indexing with the low nine of sixteen bits hits exactly the short codes they begin with. */
  lemma FastHitMatches(lens: seq<nat>, v: nat, i: nat)
    requires Fits(lens) && v < 0x1_0000
    ensures FastHit(lens, v % FAST_SIZE, i) <==> Matches(lens, i, Reverse(v, 16)) && lens[i] <= ZFAST_BITS
  {
    hide Code, Reverse;
    if i < |lens| && 1 <= lens[i] <= ZFAST_BITS {
      var l := lens[i];
      ReversePrefix(v, 16, l);
      CodeFits(lens, i);
      ReverseTwice(Code(lens, i), l);
      ReverseTwice(v % Pow2(l), l);
      LowBitsAgree(v, l);
    }
  }

  lemma LowBitsAgree(v: nat, l: nat)
    requires l <= ZFAST_BITS
    ensures v % FAST_SIZE % Pow2(l) == v % Pow2(l) < Pow2(l)
  {
    Pow2Adds(9 - l, l);
    assert Pow2(9) == FAST_SIZE by { Pow2Of16(); assert Pow2(9) == 2 * Pow2(8); }
    ModOfMultiple(v, Pow2(9 - l), Pow2(l));
  }

  /** A hit in the fast table is the symbol. */
  lemma FastLookup(lens: seq<nat>, v: nat, fast: seq<nat>, size: seq<nat>, value: seq<nat>)
    requires Fits(lens) && v < 0x1_0000 && |lens| <= MAX_SYMBOLS
    requires FastFor(lens, |lens|, fast) && SymbolsFor(lens, |lens|, size, value)
    requires fast[v % FAST_SIZE] < NO_ENTRY
    ensures var b := fast[v % FAST_SIZE];
            var sym := Symbol(lens, Reverse(v, 16));
            && b < |size| && b < |value|
            && sym == value[b] && 0 <= sym < |lens| && lens[sym] == size[b]
  {
    hide Slot, Reverse, Code;
    assert FastEntry(lens, |lens|, v % FAST_SIZE, fast[v % FAST_SIZE]);
    var i: nat :| i < |lens| && FastHit(lens, v % FAST_SIZE, i) && fast[v % FAST_SIZE] == Slot(lens, i);
    FastHitMatches(lens, v, i);
    SymbolIs(lens, Reverse(v, 16), i);
    assert SymbolAt(lens, i, size, value);
  }

  /** Without a hit the string lies above the ranges of all short codes. */
  lemma FastMiss(lens: seq<nat>, v: nat, fast: seq<nat>)
    requires Fits(lens) && v < 0x1_0000 && |lens| <= MAX_SYMBOLS
    requires FastFor(lens, |lens|, fast) && fast[v % FAST_SIZE] >= NO_ENTRY
    ensures Reverse(v, 16) >= End(lens, ZFAST_BITS)
  {
    hide Reverse, Code, FastHit, Slot, End;
    var k := Reverse(v, 16);
    var l := 0;
    EndOfNothing(lens);
    while l < ZFAST_BITS
      invariant l <= ZFAST_BITS && End(lens, l) <= k
    {
      if k < End(lens, l + 1) {
        var i := RangeHasMatch(lens, l + 1, k);
        FastHitMatches(lens, v, i);
        EntryIsSlot(lens, v % FAST_SIZE, fast, i);
        assert false;
      }
      l := l + 1;
    }
  }

  lemma EndOfNothing(lens: seq<nat>)
    ensures End(lens, 0) == 0
  {
  }

  lemma EntryIsSlot(lens: seq<nat>, idx: nat, fast: seq<nat>, i: nat)
    requires FastFor(lens, |lens|, fast) && idx < FAST_SIZE && FastHit(lens, idx, i) && |lens| <= MAX_SYMBOLS
    ensures fast[idx] < NO_ENTRY
  {
    hide Slot;
    assert FastEntry(lens, |lens|, idx, fast[idx]);
    forall j: nat | j < |lens| && lens[j] >= 1
      ensures Slot(lens, j) < NO_ENTRY
    {
      SlotBounded(lens, j);
    }
  }

  /** The slow search stops at the length of the code, and the slot is computed from the code. */
  lemma SlowLookup(lens: seq<nat>, k: nat, s: nat, size: seq<nat>, value: seq<nat>)
    requires SymbolsFor(lens, |lens|, size, value)
    requires 1 <= s <= MAX_BITS && End(lens, s - 1) <= k < End(lens, s)
    ensures k / Pow2(16 - s) >= Start(lens, s)
    ensures var b := k / Pow2(16 - s) - Start(lens, s) + Before(lens, s);
            var sym := Symbol(lens, k);
            && b < |size| && b < |value|
            && sym == value[b] && 0 <= sym < |lens| && lens[sym] == s
  {
    var i := RangeHasMatch(lens, s, k);
    SymbolIs(lens, k, i);
    assert SymbolAt(lens, i, size, value);
  }

  /** Above every range there is no code. */
  lemma NoSymbol(lens: seq<nat>, k: nat)
    requires k >= End(lens, MAX_BITS)
    ensures Symbol(lens, k) == -1
  {
    var sym := Symbol(lens, k);
    if sym >= 0 {
      MatchInRange(lens, sym, k);
      EndGrows(lens, lens[sym], MAX_BITS);
    }
  }
}
