/** Streams written by section 3 of RFC 1951, from any blocks and under any codes, inflate to
    what the blocks stand for. */
module DeflateRoundTrip {
  import opened Bytes
  import opened Powers
  import opened Huffman
  import opened HuffmanTable
  import opened InflateFormat
  import opened InflateBits
  import opened Inflate
  import opened DeflateStream
  import opened PrefixCodes

  // Bits in their places

  function Digit(bit: bool): nat {
    if bit then 1 else 0
  }

  /** The input has these bits from position `p` on. */
  ghost predicate Carries(data: seq<byte>, p: nat, bits: seq<bool>) {
    p + |bits| <= 8 * |data| && forall k :: 0 <= k < |bits| ==> InBit(data, p + k) == Digit(bits[k])
  }

  lemma CarriesParts(data: seq<byte>, p: nat, a: seq<bool>, b: seq<bool>)
    requires Carries(data, p, a + b)
    ensures Carries(data, p, a) && Carries(data, p + |a|, b)
  {
    hide InBit;
    forall k | 0 <= k < |a|
      ensures InBit(data, p + k) == Digit(a[k])
    {
      assert (a + b)[k] == a[k];
    }
    forall k | 0 <= k < |b|
      ensures InBit(data, p + |a| + k) == Digit(b[k])
    {
      assert (a + b)[|a| + k] == b[k];
    }
  }

  lemma {:induction false} NumberReads(data: seq<byte>, p: nat, v: nat, n: nat)
    requires v < Pow2(n) && Carries(data, p, Number(v, n))
    ensures Bits(data, p, n) == v
    decreases n
  {
    hide InBit;
    if n > 0 {
      CarriesParts(data, p, [v % 2 == 1], Number(v / 2, n - 1));
      NumberReads(data, p + 1, v / 2, n - 1);
      assert InBit(data, p + 0) == Digit([v % 2 == 1][0]);
    }
  }

  // Symbols

  lemma {:induction false} NumberTop(v: nat, bit: nat, n: nat)
    requires v < Pow2(n) && bit <= 1
    ensures Number(bit * Pow2(n) + v, n + 1) == Number(v, n) + [bit == 1]
    decreases n
  {
    if n == 0 {
      assert Number(bit, 1) == [bit == 1];
    } else {
      var h := Pow2(n - 1);
      MulDouble(bit, h);
      assert (bit * Pow2(n) + v) / 2 == bit * h + v / 2 && (bit * Pow2(n) + v) % 2 == v % 2;
      NumberTop(v / 2, bit, n - 1);
    }
  }

  /** Writing a number from the top is writing its reversal from the bottom. */
  lemma {:induction false} HighFirstIs(c: nat, l: nat)
    ensures HighFirst(c, l) == Number(Reverse(c, l), l)
    decreases l
  {
    hide Number, Pow2;
    if l > 0 {
      HighFirstIs(c / 2, l - 1);
      NumberTop(Reverse(c / 2, l - 1), c % 2, l - 1);
    } else {
      NoBits(c);
      NoNumber();
    }
  }

  lemma NoNumber()
    ensures Number(0, 0) == []
  {
  }

  /** The writer's codes are those that section 3.2.2 counts out. */
  lemma CanonicalIsCode(lens: seq<nat>, i: nat)
    requires HaveRoom(lens) && HasCode(lens, i)
    ensures Lengths(lens) && Fits(lens) && Canonical(lens, i) == Code(lens, i)
  {
    hide Room, RoomBefore, TotalRoom, Code, Fits;
    FitsIff(lens);
    CodeByRoom(lens, i);
    RoomIsSome(lens[i]);
    DivModUnique(RoomBefore(lens, i, |lens|), Room(lens[i]), Code(lens, i), 0);
  }

  /** What a symbol's code was written as decodes to the symbol. */
  lemma CodeReads(data: seq<byte>, p: nat, lens: seq<nat>, i: nat)
    requires HaveRoom(lens) && HasCode(lens, i) && Carries(data, p, CodeBits(lens, i))
    ensures SymbolFrom(data, p, lens) == i
  {
    hide Bits, Reverse, Carries, Code, Canonical, Fits, Number, HighFirst, HaveRoom;
    var l, v := lens[i], Bits(data, p, 16);
    CanonicalIsCode(lens, i);
    CodeFits(lens, i);
    HighFirstIs(Code(lens, i), l);
    NumberReads(data, p, Reverse(Code(lens, i), l), l);
    BitsTake(data, p, l, 16);
    ReversePrefix(v, 16, l);
    ReverseTwice(Code(lens, i), l);
    SymbolIs(lens, Reverse(v, 16), i);
  }

  lemma SmallPowers()
    ensures Pow2(0) == 1 && Pow2(1) == 2 && Pow2(2) == 4 && Pow2(3) == 8 && Pow2(4) == 16 && Pow2(5) == 32
  {
    assert Pow2(3) == 2 * Pow2(2);
    assert Pow2(5) == 2 * Pow2(4);
  }

  lemma LargePowers()
    ensures Pow2(6) == 64 && Pow2(7) == 128 && Pow2(8) == 256 && Pow2(9) == 512 && Pow2(10) == 1024
    ensures Pow2(11) == 2048 && Pow2(12) == 4096 && Pow2(13) == 8192
  {
    SmallPowers();
    assert Pow2(6) == 2 * Pow2(5);
    assert Pow2(8) == 2 * Pow2(7);
    assert Pow2(10) == 2 * Pow2(9);
    assert Pow2(12) == 2 * Pow2(11);
  }

  lemma LengthTables(z: nat)
    requires 257 <= z <= 285
    ensures BaseLength(z) == ShortestLength(z) && ExtraLengthBits(z) == LengthExtra(z) <= 5
  {
    hide Pow2;
    SmallPowers();
  }

  lemma DistanceTables(d: nat)
    requires d <= 29
    ensures BaseDistance(d) == NearestDistance(d) && ExtraDistanceBits(d) == DistanceExtra(d) <= 13
  {
    hide Pow2;
    SmallPowers();
    LargePowers();
  }

  /** The extra bits of a length have room for what its symbol leaves over. */
  lemma LengthFits(len: nat)
    requires 3 <= len <= 258
    ensures var z := LengthSymbol(len); len - ShortestLength(z) < Pow2(LengthExtra(z))
  {
    hide Pow2, LengthFrom;
    SmallPowers();
    var z := LengthSymbol(len);
    if z < 285 {
      LengthGap(z);
    }
  }

  lemma LengthGap(z: nat)
    requires 257 <= z < 285
    ensures ShortestLength(z + 1) <= ShortestLength(z) + Pow2(LengthExtra(z))
  {
    hide Pow2;
    SmallPowers();
    if 265 <= z < 284 {
      PowerNext((z - 261) / 4);
    }
  }

  lemma PowerNext(e: nat)
    ensures Pow2(e + 1) == 2 * Pow2(e)
  {
  }

  lemma DistanceFits(dist: nat)
    requires 1 <= dist <= 0x8000
    ensures var d := DistanceSymbol(dist); dist - NearestDistance(d) < Pow2(DistanceExtra(d))
  {
    hide Pow2, DistanceFrom;
    LargePowers();
    var d := DistanceSymbol(dist);
    if d < 29 {
      DistanceGap(d);
    }
  }

  lemma DistanceGap(d: nat)
    requires d < 29
    ensures NearestDistance(d + 1) <= NearestDistance(d) + Pow2(DistanceExtra(d))
  {
    hide Pow2;
    SmallPowers();
    if d >= 4 {
      PowerNext(d / 2 - 1);
    }
  }

  // Blocks of literals and matches

  lemma FourParts(data: seq<byte>, p: nat, a: seq<bool>, b: seq<bool>, c: seq<bool>, d: seq<bool>)
    requires Carries(data, p, a + (b + (c + d)))
    ensures Carries(data, p, a) && Carries(data, p + |a|, b)
    ensures Carries(data, p + |a| + |b|, c) && Carries(data, p + |a| + |b| + |c|, d)
    ensures |a + (b + (c + d))| == |a| + |b| + |c| + |d|
  {
    hide Carries;
    CarriesParts(data, p, a, b + (c + d));
    CarriesParts(data, p + |a|, b, c + d);
    CarriesParts(data, p + |a| + |b|, c, d);
  }

  lemma LengthRestReads(data: seq<byte>, p: nat, len: nat)
    requires 3 <= len <= 258 && Carries(data, p, LengthRest(len))
    ensures var z := LengthSymbol(len); BaseLength(z) + Bits(data, p, ExtraLengthBits(z)) == len
  {
    hide Bits, Carries, Number, LengthSymbol, BaseLength, ExtraLengthBits, ShortestLength, LengthExtra, Pow2;
    var z := LengthSymbol(len);
    LengthTables(z);
    LengthFits(len);
    NumberReads(data, p, len - ShortestLength(z), LengthExtra(z));
  }

  lemma DistanceRestReads(data: seq<byte>, p: nat, dist: nat)
    requires 1 <= dist <= 0x8000 && Carries(data, p, DistanceRest(dist))
    ensures var d := DistanceSymbol(dist); BaseDistance(d) + Bits(data, p, ExtraDistanceBits(d)) == dist
  {
    hide Bits, Carries, Number, DistanceSymbol, BaseDistance, ExtraDistanceBits, NearestDistance, DistanceExtra, Pow2;
    var d := DistanceSymbol(dist);
    DistanceTables(d);
    DistanceFits(dist);
    NumberReads(data, p, dist - NearestDistance(d), DistanceExtra(d));
  }

  /** A match is two symbols, each with its extra bits. */
  lemma CopyCodes(ll: seq<nat>, dl: seq<nat>, len: nat, dist: nat)
    requires Codable(ll, dl, Copy(len, dist))
    ensures len >= 3 && dist >= 1
    ensures var z, d := LengthSymbol(len), DistanceSymbol(dist);
            HasCode(ll, z) && HasCode(dl, d) && z < LENGTH_SYMBOLS && d < DISTANCE_SYMBOLS
            && |CodeBits(ll, z)| == ll[z] && |CodeBits(dl, d)| == dl[d]
            && |LengthRest(len)| == ExtraLengthBits(z) && |DistanceRest(dist)| == ExtraDistanceBits(d)
  {
    hide LengthSymbol, DistanceSymbol, ExtraLengthBits, ExtraDistanceBits, LengthExtra, DistanceExtra, BaseLength,
         BaseDistance, ShortestLength, NearestDistance, Pow2, LengthRest, DistanceRest, CodeBits;
    LengthTables(LengthSymbol(len));
    DistanceTables(DistanceSymbol(dist));
  }

  lemma CopyBits(ll: seq<nat>, dl: seq<nat>, len: nat, dist: nat)
    requires Codable(ll, dl, Copy(len, dist))
    ensures var z, d := LengthSymbol(len), DistanceSymbol(dist);
            TokenBits(ll, dl, Copy(len, dist))
            == CodeBits(ll, z) + (LengthRest(len) + (CodeBits(dl, d) + DistanceRest(dist)))
  {
    hide LengthSymbol, DistanceSymbol, LengthRest, DistanceRest, CodeBits;
  }

  /** The bits of a match, part by part. */
  lemma CopyParts(data: seq<byte>, p: nat, ll: seq<nat>, dl: seq<nat>, len: nat, dist: nat)
    requires Codable(ll, dl, Copy(len, dist)) && Carries(data, p, TokenBits(ll, dl, Copy(len, dist)))
    ensures len >= 3 && dist >= 1
    ensures var z, d := LengthSymbol(len), DistanceSymbol(dist);
            && HasCode(ll, z) && HasCode(dl, d) && z < LENGTH_SYMBOLS && d < DISTANCE_SYMBOLS
            && var p1 := p + ll[z]; var p2 := p1 + ExtraLengthBits(z); var p3 := p2 + dl[d];
               && Carries(data, p, CodeBits(ll, z)) && Carries(data, p1, LengthRest(len))
               && Carries(data, p2, CodeBits(dl, d)) && Carries(data, p3, DistanceRest(dist))
               && p + |TokenBits(ll, dl, Copy(len, dist))| == p3 + ExtraDistanceBits(d)
  {
    hide Carries, CodeBits, LengthSymbol, DistanceSymbol, ExtraLengthBits, ExtraDistanceBits, LengthRest, DistanceRest,
         LengthExtra, DistanceExtra, BaseLength, BaseDistance, ShortestLength, NearestDistance, Pow2, HasCode, Codable,
         TokenBits;
    CopyCodes(ll, dl, len, dist);
    var z, d := LengthSymbol(len), DistanceSymbol(dist);
    CopyBits(ll, dl, len, dist);
    FourParts(data, p, CodeBits(ll, z), LengthRest(len), CodeBits(dl, d), DistanceRest(dist));
  }

  lemma CopyReads(data: seq<byte>, p: nat, out: seq<byte>, ll: seq<nat>, dl: seq<nat>, len: nat, dist: nat)
    requires Codes(ll, dl) && CanFollow(out, Copy(len, dist)) && Codable(ll, dl, Copy(len, dist))
    requires Carries(data, p, TokenBits(ll, dl, Copy(len, dist)))
    ensures var z := LengthSymbol(len);
            SymbolFrom(data, p, ll) == z &&
            MatchPart(data, p + ll[z], out, dl, z)
            == Done(p + |TokenBits(ll, dl, Copy(len, dist))|, CopyBack(out, dist, len))
  {
    hide Bits, Carries, SymbolFrom, CodeBits, CopyBack, LengthSymbol, DistanceSymbol, HaveRoom, Pow2, MatchPart,
         BaseLength, BaseDistance, ExtraLengthBits, ExtraDistanceBits, LengthRest, DistanceRest, LengthExtra,
         DistanceExtra, ShortestLength, NearestDistance;
    hide TokenBits, Codable;
    var z, d := LengthSymbol(len), DistanceSymbol(dist);
    CopyParts(data, p, ll, dl, len, dist);
    var p1 := p + ll[z];
    var p2 := p1 + ExtraLengthBits(z);
    CodeReads(data, p, ll, z);
    LengthRestReads(data, p1, len);
    CodeReads(data, p2, dl, d);
    DistanceRestReads(data, p2 + dl[d], dist);
    MatchIs(data, p1, out, dl, z, d, len, dist);
  }

  lemma MatchIs(data: seq<byte>, p: nat, out: seq<byte>, dl: seq<nat>, z: nat, d: nat, len: nat, dist: nat)
    requires 257 <= z < LENGTH_SYMBOLS && |dl| <= DISTANCE_SYMBOLS && d < |dl| && len > 0 && 1 <= dist <= |out|
    requires BaseLength(z) + Bits(data, p, ExtraLengthBits(z)) == len
    requires SymbolFrom(data, p + ExtraLengthBits(z), dl) == d
    requires BaseDistance(d) + Bits(data, p + ExtraLengthBits(z) + dl[d], ExtraDistanceBits(d)) == dist
    ensures MatchPart(data, p, out, dl, z)
            == Done(p + ExtraLengthBits(z) + dl[d] + ExtraDistanceBits(d), CopyBack(out, dist, len))
  {
    hide Bits, SymbolFrom, CopyBack, BaseLength, BaseDistance, ExtraLengthBits, ExtraDistanceBits;
  }

  lemma LiteralReads(data: seq<byte>, p: nat, ll: seq<nat>, dl: seq<nat>, b: byte)
    requires Codes(ll, dl) && Codable(ll, dl, Literal(b)) && Carries(data, p, TokenBits(ll, dl, Literal(b)))
    ensures SymbolFrom(data, p, ll) == b && |TokenBits(ll, dl, Literal(b))| == ll[b]
  {
    hide Carries, SymbolFrom, HaveRoom;
    CodeReads(data, p, ll, b);
  }

  lemma TokenReads(data: seq<byte>, p: nat, out: seq<byte>, ll: seq<nat>, dl: seq<nat>, t: Token)
    requires Codes(ll, dl) && CanFollow(out, t) && Codable(ll, dl, t)
    requires Carries(data, p, TokenBits(ll, dl, t))
    ensures var z := SymbolFrom(data, p, ll);
            z != END && OneSymbol(data, p, out, ll, dl, z) == Done(p + |TokenBits(ll, dl, t)|, Step(out, t))
  {
    hide Carries, SymbolFrom, MatchPart, LengthSymbol, DistanceSymbol, TokenBits, CopyBack, HaveRoom;
    if t.Literal? {
      LiteralReads(data, p, ll, dl, t.b);
    } else {
      CopyReads(data, p, out, ll, dl, t.len, t.dist);
    }
  }

  /** For any codes that have what the tokens need, the block decodes to what they stand for. */
  lemma {:induction false} TokensRead(data: seq<byte>, p: nat, out: seq<byte>, ll: seq<nat>, dl: seq<nat>,
                                      ts: seq<Token>)
    requires Codes(ll, dl) && AllCodable(ll, dl, ts) && ValidTokens(out, ts)
    requires Carries(data, p, TokensBits(ll, dl, ts))
    ensures InflateFormat.Block(data, p, out, ll, dl) == Done(p + |TokensBits(ll, dl, ts)|, Replay(out, ts))
    decreases |ts|
  {
    hide Carries, SymbolFrom, OneSymbol, TokenBits, CodeBits, Step, CanFollow, Codable;
    if ts == [] {
      CodeReads(data, p, ll, END);
    } else {
      var first := TokenBits(ll, dl, ts[0]);
      CarriesParts(data, p, first, TokensBits(ll, dl, ts[1..]));
      TokenReads(data, p, out, ll, dl, ts[0]);
      WithinData(data, p, first);
      TokensRead(data, p + |first|, Step(out, ts[0]), ll, dl, ts[1..]);
    }
  }

  /** The tokens without the end of the block. */
  function OpenBits(ll: seq<nat>, dl: seq<nat>, ts: seq<Token>): seq<bool>
    requires AllCodable(ll, dl, ts)
  {
    if ts == [] then [] else TokenBits(ll, dl, ts[0]) + OpenBits(ll, dl, ts[1..])
  }

  /** A match that begins before the output, behind any tokens, makes the block fail. */
  lemma {:induction false} FarCopyFails(data: seq<byte>, p: nat, out: seq<byte>, ll: seq<nat>, dl: seq<nat>,
                                        ts: seq<Token>, len: nat, dist: nat)
    requires Codes(ll, dl) && AllCodable(ll, dl, ts) && ValidTokens(out, ts)
    requires 3 <= len <= 258 && |Replay(out, ts)| < dist <= 0x8000 && Codable(ll, dl, Copy(len, dist))
    requires Carries(data, p, OpenBits(ll, dl, ts) + TokenBits(ll, dl, Copy(len, dist)))
    ensures InflateFormat.Block(data, p, out, ll, dl) == Rejected
    decreases |ts|
  {
    hide Carries, SymbolFrom, OneSymbol, TokenBits, CodeBits, Step, CanFollow, Codable, MatchPart;
    var last := TokenBits(ll, dl, Copy(len, dist));
    if ts == [] {
      assert [] + last == last;
      FarCopyReads(data, p, out, ll, dl, len, dist);
    } else {
      var first := TokenBits(ll, dl, ts[0]);
      assert OpenBits(ll, dl, ts) + last == first + (OpenBits(ll, dl, ts[1..]) + last);
      CarriesParts(data, p, first, OpenBits(ll, dl, ts[1..]) + last);
      TokenReads(data, p, out, ll, dl, ts[0]);
      WithinData(data, p, first);
      FarCopyFails(data, p + |first|, Step(out, ts[0]), ll, dl, ts[1..], len, dist);
    }
  }

  lemma FarCopyReads(data: seq<byte>, p: nat, out: seq<byte>, ll: seq<nat>, dl: seq<nat>, len: nat, dist: nat)
    requires Codes(ll, dl) && Codable(ll, dl, Copy(len, dist)) && 3 <= len <= 258 && |out| < dist <= 0x8000
    requires Carries(data, p, TokenBits(ll, dl, Copy(len, dist)))
    ensures var z := SymbolFrom(data, p, ll); z != END && OneSymbol(data, p, out, ll, dl, z) == Rejected
  {
    hide Bits, Carries, SymbolFrom, CodeBits, CopyBack, LengthSymbol, DistanceSymbol, HaveRoom, Pow2,
         BaseLength, BaseDistance, ExtraLengthBits, ExtraDistanceBits, LengthRest, DistanceRest, LengthExtra,
         DistanceExtra, ShortestLength, NearestDistance;
    hide TokenBits, Codable;
    var z, d := LengthSymbol(len), DistanceSymbol(dist);
    CopyParts(data, p, ll, dl, len, dist);
    var p2 := p + ll[z] + ExtraLengthBits(z);
    CodeReads(data, p, ll, z);
    CodeReads(data, p2, dl, d);
    DistanceRestReads(data, p2 + dl[d], dist);
  }

  lemma WithinData(data: seq<byte>, p: nat, bits: seq<bool>)
    requires Carries(data, p, bits)
    ensures p + |bits| <= 8 * |data|
  {
  }

  // Code lengths

  lemma {:induction false} TimesIs(v: nat, n: nat)
    ensures Times(v, n) == Repeat(v, n)
  {
    if n > 0 {
      TimesIs(v, n - 1);
    }
  }

  /** One operation is read as what it says. */
  lemma OpReads(data: seq<byte>, p: nat, acc: seq<nat>, op: LengthOp)
    requires Lengths(acc) && OpFollows(acc, op) && Carries(data, p, OpRest(op))
    ensures Lengths(After(acc, op)) && Run(data, p, OpSymbol(op), acc) == (p + |OpRest(op)|, After(acc, op))
  {
    hide Carries, Number, Bits, Repeat, Times, Pow2;
    SmallPowers();
    LargePowers();
    match op
    case One(len) => TimesIs(len, 1);
      OneTime(len);
    case Again(n) =>
      NumberReads(data, p, n - 3, 2);
      TimesIs(acc[|acc| - 1], n);
    case Zeros(n) =>
      TimesIs(0, n);
      if n <= 10 {
        NumberReads(data, p, n - 3, 3);
      } else {
        NumberReads(data, p, n - 11, 7);
      }
  }

  lemma OneTime(v: nat)
    ensures Times(v, 1) == [v]
  {
  }

  /** However the lengths are written, they are read as they are. */
  lemma {:induction false} OpsRead(data: seq<byte>, p: nat, cl: seq<nat>, ops: seq<LengthOp>, acc: seq<nat>)
    requires HaveRoom(cl) && |cl| == 19 && AllOpsCodable(cl, ops) && ValidOps(acc, ops) && Lengths(acc)
    requires |Expand(acc, ops)| <= 288 + 32 && Carries(data, p, OpsBits(cl, ops))
    ensures Lengths(Expand(acc, ops))
    ensures ReadLens(data, p, cl, |Expand(acc, ops)|, acc) == Lens(p + |OpsBits(cl, ops)|, Expand(acc, ops))
    decreases |ops|
  {
    hide Carries, SymbolFrom, Run, After, OpSymbol, OpRest, CodeBits, HaveRoom, HasCode, Lengths;
    if ops != [] {
      var op := ops[0];
      var code, extra, rest := CodeBits(cl, OpSymbol(op)), OpRest(op), OpsBits(cl, ops[1..]);
      CarriesParts(data, p, code, extra + rest);
      CarriesParts(data, p + |code|, extra, rest);
      CodeReads(data, p, cl, OpSymbol(op));
      OpReads(data, p + |code|, acc, op);
      OpsRead(data, p + |code| + |extra|, cl, ops[1..], After(acc, op));
      SymbolOf16(acc, op);
    }
  }

  lemma SymbolOf16(acc: seq<nat>, op: LengthOp)
    requires OpFollows(acc, op)
    ensures OpSymbol(op) == 16 ==> acc != []
  {
  }

  /** Where each symbol of the code length alphabet stands in the fixed order. */
  function Place(v: nat): (i: nat)
    requires v < 19
    ensures i < 19
  {
    if v >= 16 then v - 16 else if v == 0 then 3 else if v >= 8 then 2 * v - 12 else 19 - 2 * v
  }

  lemma PlacesInvert(i: nat)
    requires i < 19
    ensures Ordered(Place(i)) == i && Place(Ordered(i)) == i
  {
  }

  lemma OrderIs(i: nat)
    requires i < 19
    ensures LENGTH_ORDER[i] == Ordered(i)
  {
  }

  lemma {:induction false} OrderedReads(data: seq<byte>, p: nat, cl: seq<nat>, i: nat, n: nat, k: nat)
    requires |cl| == 19 && i <= k < n <= 19 && (forall j :: 0 <= j < 19 ==> cl[j] <= 7)
    requires Carries(data, p + 3 * i, OrderedBits(cl, i, n))
    ensures Bits(data, p + 3 * k, 3) == cl[Ordered(k)]
    decreases n - i
  {
    hide Carries, Number, Bits, Ordered, Pow2;
    CarriesParts(data, p + 3 * i, Number(cl[Ordered(i)], 3), OrderedBits(cl, i + 1, n));
    if i < k {
      OrderedReads(data, p, cl, i + 1, n, k);
    } else {
      SmallPowers();
      NumberReads(data, p + 3 * i, cl[Ordered(i)], 3);
    }
  }

  lemma {:induction false} LensAt(data: seq<byte>, p: nat, n: nat, v: nat)
    requires n <= 19 && v < 19
    ensures CodeLengthLens(data, p, n)[v] == if Place(v) < n then Bits(data, p + 3 * Place(v), 3) else 0
    decreases n
  {
    hide Bits, CodeLengthLens, Ordered, Place;
    PlacesInvert(v);
    if n > 0 {
      PlacesInvert(n - 1);
      OrderIs(n - 1);
      LensAt(data, p, n - 1, v);
      OneMoreLength(data, p, n - 1);
    } else {
      NoCodeLengths(data, p);
      NoLengthsYet(data, v);
    }
  }

  lemma NoLengthsYet(data: seq<byte>, v: nat)
    requires v < 19
    ensures CodeLengthLens(data, 0, 0)[v] == 0
  {
  }

  lemma CodeLengthsRead(data: seq<byte>, p: nat, cl: seq<nat>, hclen: nat)
    requires CodeLengthCode(cl, hclen) && Carries(data, p, OrderedBits(cl, 0, hclen))
    ensures CodeLengthLens(data, p, hclen) == cl
  {
    hide Carries, Bits, CodeLengthLens, OrderedBits, TotalRoom;
    forall v | 0 <= v < 19
      ensures CodeLengthLens(data, p, hclen)[v] == cl[v]
    {
      LensAt(data, p, hclen, v);
      PlacesInvert(v);
      if Place(v) < hclen {
        OrderedReads(data, p, cl, 0, hclen, Place(v));
      }
    }
  }

  lemma HeadReads(data: seq<byte>, p: nat, hlit: nat, hdist: nat, hclen: nat)
    requires 257 <= hlit <= 288 && 1 <= hdist <= 32 && 4 <= hclen <= 19
    requires Carries(data, p, HeadBits(hlit, hdist, hclen))
    ensures Bits(data, p, 5) + 257 == hlit && Bits(data, p + 5, 5) + 1 == hdist && Bits(data, p + 10, 4) + 4 == hclen
  {
    hide Carries, Number, Bits, Pow2;
    SmallPowers();
    var a, b, c := Number(hlit - 257, 5), Number(hdist - 1, 5), Number(hclen - 4, 4);
    CarriesParts(data, p, a, b + c);
    CarriesParts(data, p + 5, b, c);
    NumberReads(data, p, hlit - 257, 5);
    NumberReads(data, p + 5, hdist - 1, 5);
    NumberReads(data, p + 10, hclen - 4, 4);
  }

  // Blocks

  lemma {:induction false} StoredReads(data: seq<byte>, q: nat, bytes: seq<byte>)
    requires Carries(data, 8 * q, StoredBits(bytes))
    ensures q + |bytes| <= |data| && data[q..q + |bytes|] == bytes
    decreases |bytes|
  {
    hide Carries, Number, Bits, Pow2;
    WithinData(data, 8 * q, StoredBits(bytes));
    if bytes != [] {
      Pow2Of16();
      CarriesParts(data, 8 * q, Number(bytes[0], 8), StoredBits(bytes[1..]));
      NumberReads(data, 8 * q, bytes[0], 8);
      AlignedByte(data, q);
      assert 8 * q + 8 == 8 * (q + 1);
      StoredReads(data, q + 1, bytes[1..]);
      assert data[q..q + |bytes|] == [data[q]] + data[q + 1..q + |bytes|];
    }
  }

  lemma PaddingAligns(p: nat)
    ensures p + Padding(p) == 8 * ((p + 7) / 8)
  {
  }

  lemma StoredBlockReads(data: seq<byte>, p: nat, out: seq<byte>, bytes: seq<byte>)
    requires |bytes| < 0x1_0000 && Carries(data, p, StoredBody(bytes, p))
    ensures StoredBlock(data, p, out) == Done(p + |StoredBody(bytes, p)|, out + bytes)
  {
    hide Carries, Number, Bits, Pow2, Padding, StoredBits;
    var q, n := (p + 7) / 8, |bytes|;
    PaddingAligns(p);
    Pow2Of16();
    var pad, len, nlen := Number(0, Padding(p)), Number(n, 16), Number(0xffff - n, 16);
    CarriesParts(data, p, pad, len + (nlen + StoredBits(bytes)));
    CarriesParts(data, 8 * q, len, nlen + StoredBits(bytes));
    CarriesParts(data, 8 * q + 16, nlen, StoredBits(bytes));
    NumberReads(data, 8 * q, n, 16);
    NumberReads(data, 8 * q + 16, 0xffff - n, 16);
    assert 8 * q + 32 == 8 * (q + 4);
    StoredReads(data, q + 4, bytes);
  }

  lemma DynamicReads(data: seq<byte>, p: nat, out: seq<byte>, b: Segment)
    requires b.Dynamic? && b.Valid(out) && Carries(data, p, b.Body(out, p))
    ensures DynamicBlock(data, p, out) == Done(p + |b.Body(out, p)|, Replay(out, b.ts))
  {
    hide Carries, Bits, HeadBits, OrderedBits, OpsBits, TokensBits, CodeLengthLens, ReadLens, Fits, Lengths, Expand,
         ValidOps, AllOpsCodable, AllCodable, ValidTokens, Replay, HasCode, InflateFormat.Block, HaveRoom, TotalRoom;
    var lens := b.Lens();
    var ll, dl := lens[..b.hlit], lens[b.hlit..];
    var head, order, ops := HeadBits(b.hlit, |dl|, b.hclen), OrderedBits(b.cl, 0, b.hclen), OpsBits(b.cl, b.ops);
    var tokens := TokensBits(ll, dl, b.ts);
    CarriesParts(data, p, head, order + (ops + tokens));
    CarriesParts(data, p + 14, order, ops + tokens);
    var p1 := p + 14 + |order|;
    CarriesParts(data, p1, ops, tokens);
    CodeLengthCodeIs(b.cl, b.hclen);
    LengthsFit(ll);
    LengthsFit(dl);
    HeadReads(data, p, b.hlit, |dl|, b.hclen);
    CodeLengthsRead(data, p + 14, b.cl, b.hclen);
    OpsRead(data, p1, b.cl, b.ops, []);
    TokensRead(data, p1 + |ops|, out, ll, dl, b.ts);
  }

  lemma LengthsFit(lens: seq<nat>)
    requires HaveRoom(lens)
    ensures Lengths(lens) && Fits(lens)
  {
    hide TotalRoom, Fits;
    FitsIff(lens);
  }

  lemma CodeLengthCodeIs(cl: seq<nat>, hclen: nat)
    requires CodeLengthCode(cl, hclen)
    ensures HaveRoom(cl) && Fits(cl) && Lengths([])
  {
    hide Fits, TotalRoom;
    FitsIff(cl);
  }

  /** Any block decodes to what it stands for. */
  lemma SegmentReads(data: seq<byte>, p: nat, out: seq<byte>, b: Segment, final: bool)
    requires b.Valid(out) && Carries(data, p, b.Bits(out, p, final))
    ensures OneBlock(data, p, out) == Done(p + |b.Bits(out, p, final)|, b.Output(out))
    ensures Bits(data, p, 1) == Digit(final)
  {
    hide Carries, Bits, Number, Segment.Body, Segment.Valid, StoredBlock, FixedBlock, DynamicBlock, Pow2, Replay;
    SmallPowers();
    CarriesParts(data, p, [final], Number(b.Kind(), 2) + b.Body(out, p + 3));
    CarriesParts(data, p + 1, Number(b.Kind(), 2), b.Body(out, p + 3));
    OneBitReads(data, p, final);
    NumberReads(data, p + 1, b.Kind(), 2);
    BodyReads(data, p + 3, out, b);
  }

  /** The fourth kind of block there is not. */
  lemma ReservedKindFails(data: seq<byte>, p: nat, out: seq<byte>, final: bool, more: seq<bool>)
    requires Carries(data, p, [final, true, true] + more)
    ensures OneBlock(data, p, out) == Rejected
  {
    hide StoredBlock, FixedBlock, DynamicBlock, InBit;
    var bits := [final, true, true] + more;
    assert InBit(data, p + 1) == Digit(bits[1]) == 1 && InBit(data, p + 2) == Digit(bits[2]) == 1;
    assert Bits(data, p + 1, 2) == InBit(data, p + 1) + 2 * Bits(data, p + 2, 1);
    assert Bits(data, p + 2, 1) == InBit(data, p + 2) + 2 * Bits(data, p + 3, 0);
  }

  lemma OneBitReads(data: seq<byte>, p: nat, bit: bool)
    requires Carries(data, p, [bit])
    ensures Bits(data, p, 1) == Digit(bit)
  {
    assert InBit(data, p + 0) == Digit([bit][0]);
    assert Bits(data, p + 1, 0) == 0;
  }

  lemma FixedIs()
    ensures FIXED_LENGTHS == FixedLengths() && FIXED_DISTANCES == FixedDistances()
    ensures HaveRoom(FixedLengths()) && HaveRoom(FixedDistances())
  {
    hide TotalRoom, Fits;
    FixedFit();
    FixedTables();
    FitsIff(FixedLengths());
    FitsIff(FixedDistances());
  }

  lemma FixedTables()
    ensures FIXED_LENGTHS == FixedLengths() && FIXED_DISTANCES == FixedDistances()
  {
    hide Repeat;
  }

  lemma BodyReads(data: seq<byte>, p: nat, out: seq<byte>, b: Segment)
    requires b.Valid(out) && Carries(data, p, b.Body(out, p))
    ensures (match b.Kind()
             case 0 => StoredBlock(data, p, out)
             case 1 => FixedBlock(data, p, out)
             case _ => DynamicBlock(data, p, out)) == Done(p + |b.Body(out, p)|, b.Output(out))
  {
    hide Carries, StoredBlock, DynamicBlock, StoredBody, TokensBits, InflateFormat.Block;
    match b
    case Stored(bytes) => StoredBlockReads(data, p, out, bytes);
    case Fixed(ts) =>
      FixedIs();
      FixedCodable(out, ts);
      TokensRead(data, p, out, FixedLengths(), FixedDistances(), ts);
    case Dynamic(_, _, _, _, _) => DynamicReads(data, p, out, b);
  }

  // Streams

  ghost predicate ValidStream(out: seq<byte>, bs: seq<Segment>)
    decreases |bs|
  {
    bs == [] || (bs[0].Valid(out) && ValidStream(bs[0].Output(out), bs[1..]))
  }

  ghost function StreamOutput(out: seq<byte>, bs: seq<Segment>): seq<byte>
    requires ValidStream(out, bs)
    decreases |bs|
  {
    if bs == [] then out else StreamOutput(bs[0].Output(out), bs[1..])
  }

  /** The blocks one after the other, from position `p` on; the last is marked as final. */
  ghost function StreamBits(out: seq<byte>, p: nat, bs: seq<Segment>): seq<bool>
    requires ValidStream(out, bs)
    decreases |bs|
  {
    if bs == [] then []
    else
      var first := bs[0].Bits(out, p, |bs| == 1);
      first + StreamBits(bs[0].Output(out), p + |first|, bs[1..])
  }

  lemma {:induction false} StreamReads(data: seq<byte>, p: nat, out: seq<byte>, bs: seq<Segment>)
    requires ValidStream(out, bs) && bs != [] && Carries(data, p, StreamBits(out, p, bs))
    ensures Blocks(data, p, out) == Done(p + |StreamBits(out, p, bs)|, StreamOutput(out, bs))
    decreases |bs|
  {
    hide Carries, InflateFormat.Bits, OneBlock, Segment.Bits, Segment.Valid, Segment.Output;
    var b, final := bs[0], |bs| == 1;
    var first := b.Bits(out, p, final);
    CarriesParts(data, p, first, StreamBits(b.Output(out), p + |first|, bs[1..]));
    SegmentReads(data, p, out, b, final);
    if !final {
      SegmentHasBits(b, out, p, final);
      WithinData(data, p, first);
      StreamReads(data, p + |first|, b.Output(out), bs[1..]);
    }
  }

  lemma SegmentHasBits(b: Segment, out: seq<byte>, p: nat, final: bool)
    requires b.Valid(out)
    ensures |b.Bits(out, p, final)| >= 3
  {
    hide Segment.Body, Segment.Valid;
  }

  // Bytes from bits

  function Gather(bits: seq<bool>): (b: nat)
    ensures b < Pow2(|bits|)
  {
    if bits == [] then 0 else Digit(bits[0]) + 2 * Gather(bits[1..])
  }

  /** Eight bits a byte, the lowest first, and zeros to fill the last one. */
  function Pack(bits: seq<bool>): seq<byte> {
    if bits == [] then []
    else
      var n := if |bits| < 8 then |bits| else 8;
      ByteHolds(bits[..n]);
      [Gather(bits[..n])] + Pack(bits[n..])
  }

  lemma ByteHolds(bits: seq<bool>)
    requires |bits| <= 8
    ensures Gather(bits) < 256
  {
    hide Gather, Pow2;
    Pow2Grows(|bits|, 8);
    Pow2Of16();
  }

  lemma {:induction false} GatheredBit(bits: seq<bool>, j: nat)
    requires j < |bits|
    ensures Halve(Gather(bits), j) % 2 == Digit(bits[j])
    decreases j
  {
    if j > 0 {
      GatheredBit(bits[1..], j - 1);
      assert Gather(bits) / 2 == Gather(bits[1..]);
    }
  }

  lemma PackedFirst(bits: seq<bool>)
    requires bits != []
    ensures var n := if |bits| < 8 then |bits| else 8;
            Gather(bits[..n]) < 256 && Pack(bits) == [Gather(bits[..n])] + Pack(bits[n..])
  {
    hide Gather;
    ByteHolds(if |bits| < 8 then bits[..|bits|] else bits[..8]);
  }

  lemma {:induction false} PackedCarries(before: seq<byte>, bits: seq<bool>, behind: seq<byte>)
    ensures Carries(before + Pack(bits) + behind, 8 * |before|, bits)
    decreases |bits|
  {
    hide InBit, Gather, Halve, Pack;
    if bits != [] {
      var n := if |bits| < 8 then |bits| else 8;
      var first, rest := bits[..n], bits[n..];
      ByteHolds(first);
      var data, q := before + Pack(bits) + behind, |before|;
      PackedFirst(bits);
      assert data == before + [Gather(first)] + Pack(rest) + behind;
      PackedCarries(before + [Gather(first)], rest, behind);
      forall k | 0 <= k < n
        ensures InBit(data, 8 * q + k) == Digit(bits[k])
      {
        InBitOfByte(data, q, k);
        GatheredBit(first, k);
      }
      forall k | n <= k < |bits|
        ensures InBit(data, 8 * q + k) == Digit(bits[k])
      {
        assert InBit(data, 8 * (q + 1) + (k - 8)) == Digit(rest[k - 8]);
      }
    }
  }

  // Round trip

  /** A header of section 2.2 of RFC 1950. */
  predicate Header(cmf: byte, flg: byte) {
    (cmf * 256 + flg) % 31 == 0 && flg / 32 % 2 == 0 && cmf % 16 == 8
  }

  ghost function ZlibStream(cmf: byte, flg: byte, bs: seq<Segment>): seq<byte>
    requires ValidStream([], bs)
  {
    [cmf, flg] + Pack(StreamBits([], 16, bs))
  }

  lemma ZlibReads(cmf: byte, flg: byte, bs: seq<Segment>, behind: seq<byte>)
    requires Header(cmf, flg) && ValidStream([], bs) && bs != []
    ensures var data := ZlibStream(cmf, flg, bs) + behind;
            Zlib(data).Done? && Zlib(data).out == StreamOutput([], bs)
  {
    hide StreamBits, Pack, Blocks, ValidStream, StreamOutput, Carries;
    var bits := StreamBits([], 16, bs);
    PackedCarries([cmf, flg], bits, behind);
    StreamReads([cmf, flg] + Pack(bits) + behind, 16, [], bs);
  }

  /** Literals for the bytes one by one. */
  function Literals(data: seq<byte>): seq<Token> {
    if data == [] then [] else [Literal(data[0])] + Literals(data[1..])
  }

  /** Every output has a stream. */
  lemma {:induction false} LiteralsStandFor(out: seq<byte>, data: seq<byte>)
    ensures ValidTokens(out, Literals(data)) && Replay(out, Literals(data)) == out + data
    decreases |data|
  {
    if data != [] {
      LiteralsStandFor(out + [data[0]], data[1..]);
      assert out + [data[0]] + data[1..] == out + data;
    } else {
      assert out + data == out;
    }
  }

  /** Whatever blocks a stream is written from, under whatever codes, and whatever follows it
      (the checksum, say), the inflater returns what the blocks stand for; if its buffer cannot
      grow, exactly when they fit. */
  method RoundTrip(data: seq<byte>, limit: nat, expandable: bool, ghost cmf: byte, ghost flg: byte,
                   ghost bs: seq<Segment>, ghost behind: seq<byte>)
    returns (ok: bool, out: seq<byte>)
    requires Header(cmf, flg) && ValidStream([], bs) && bs != [] && data == ZlibStream(cmf, flg, bs) + behind
    requires expandable ==> limit > 0
    ensures ok <==> expandable || |StreamOutput([], bs)| <= limit
    ensures ok ==> out == StreamOutput([], bs)
  {
    hide ZlibStream, ValidStream, StreamOutput, Zlib, Blocks, Header, ZBuf.Reservoir;
    ZlibReads(cmf, flg, bs, behind);
    var z := new ZBuf(data, limit, expandable);
    assert Zlib(z.data).Done?;
    ok := z.ParseZlib(true);
    out := z.zout;
  }
}
