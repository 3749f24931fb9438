/** The DEFLATE format (RFC 1951) inside a zlib stream (RFC 1950), read off bit positions of
    the input. Past its end the input continues with zero bits. */
module InflateFormat {
  import opened Bytes
  import opened Powers
  import opened Huffman
  import opened HuffmanTable

  // Bits, packed from the lowest of each byte (section 3.1.1)

  function InBit(data: seq<byte>, p: nat): nat {
    if p / 8 < |data| && Bit(data[p / 8], p % 8) then 1 else 0
  }

  /** The `n` bits from position `p` on, as a number whose lowest bit comes first. */
  function Bits(data: seq<byte>, p: nat, n: nat): (v: nat)
    ensures v < Pow2(n)
    decreases n
  {
    if n == 0 then 0 else InBit(data, p) + 2 * Bits(data, p + 1, n - 1)
  }

  /** The symbol whose Huffman code the bits from `p` on begin with, or -1. Codes are packed
      from their top bit. */
  ghost function SymbolFrom(data: seq<byte>, p: nat, lens: seq<nat>): (sym: int)
    ensures sym == -1 || (0 <= sym < |lens| && 1 <= lens[sym] <= MAX_BITS)
  {
    Symbol(lens, Reverse(Bits(data, p, 16), 16))
  }

  /** What a part of a stream decodes to: the position behind it and all output so far; or an
      error; or output without end, when the zero bits behind the input repeat a symbol for
      ever; or nothing, where the program reads outside its arrays or what it never wrote. */
  datatype Inflated = Done(p: nat, out: seq<byte>) | Rejected | Endless | Unspecified

  // Compressed blocks (section 3.2.5)

  const LENGTH_BASE: seq<nat> := [3, 4, 5, 6, 7, 8, 9, 10, 11, 13, 15, 17, 19, 23, 27, 31, 35, 43, 51, 59, 67, 83, 99,
                                  115, 131, 163, 195, 227, 258, 0, 0]
  const LENGTH_EXTRA: seq<nat> := [0, 0, 0, 0, 0, 0, 0, 0, 1, 1, 1, 1, 2, 2, 2, 2, 3, 3, 3, 3, 4, 4, 4, 4, 5, 5, 5, 5,
                                   0, 0, 0]
  const DIST_BASE: seq<nat> := [1, 2, 3, 4, 5, 7, 9, 13, 17, 25, 33, 49, 65, 97, 129, 193, 257, 385, 513, 769, 1025,
                                1537, 2049, 3073, 4097, 6145, 8193, 12289, 16385, 24577, 0, 0]
  const DIST_EXTRA: seq<nat> := [0, 0, 0, 0, 1, 1, 2, 2, 3, 3, 4, 4, 5, 5, 6, 6, 7, 7, 8, 8, 9, 9, 10, 10, 11, 11, 12,
                                 12, 13, 13, 0, 0]

  const LENGTH_SYMBOLS: nat := 288
  const DISTANCE_SYMBOLS: nat := 32

  /** No length at all for the two symbols that section 3.2.6 reserves. */
  function BaseLength(z: nat): nat
    requires 257 <= z < LENGTH_SYMBOLS
  {
    LENGTH_BASE[z - 257]
  }

  function ExtraLengthBits(z: nat): (n: nat)
    requires 257 <= z < LENGTH_SYMBOLS
    ensures n <= 5
  {
    LENGTH_EXTRA[z - 257]
  }

  function BaseDistance(d: nat): nat
    requires d < DISTANCE_SYMBOLS
  {
    DIST_BASE[d]
  }

  function ExtraDistanceBits(d: nat): (n: nat)
    requires d < DISTANCE_SYMBOLS
    ensures n <= 13
  {
    DIST_EXTRA[d]
  }

  /** The bits left from `p` on, and one for the end itself. */
  function Left(data: seq<byte>, p: nat): nat {
    if p <= 8 * |data| then 8 * |data| + 1 - p else 0
  }

  /** The symbols up to and including 256, the end of the block. */
  ghost function Block(data: seq<byte>, p: nat, out: seq<byte>, ll: seq<nat>, dl: seq<nat>): (r: Inflated)
    requires |ll| <= LENGTH_SYMBOLS && |dl| <= DISTANCE_SYMBOLS
    ensures r.Done? ==> r.p > p && out <= r.out
    decreases Left(data, p)
  {
    var z := SymbolFrom(data, p, ll);
    if z == 256 then Done(p + ll[z], out)
    else
      var next := OneSymbol(data, p, out, ll, dl, z);
      if !next.Done? then next
      else if p <= 8 * |data| then Block(data, next.p, next.out, ll, dl)
      else if |next.out| == |out| then Unspecified
      else Endless
  }

  /** The literal or match of a symbol other than the end of the block. */
  ghost function OneSymbol(data: seq<byte>, p: nat, out: seq<byte>, ll: seq<nat>, dl: seq<nat>, z: int): (r: Inflated)
    requires |ll| <= LENGTH_SYMBOLS && |dl| <= DISTANCE_SYMBOLS && z != 256
    requires z == SymbolFrom(data, p, ll)
    ensures r != Endless && (r.Done? ==> r.p > p && out <= r.out)
  {
    if z < 0 then Rejected
    else if z < 256 then Done(p + ll[z], out + [z as int])
    else MatchPart(data, p + ll[z], out, dl, z)
  }

  /** A length symbol has been read; its extra bits, the distance and its extra bits follow. */
  ghost function MatchPart(data: seq<byte>, p: nat, out: seq<byte>, dl: seq<nat>, z: nat): (r: Inflated)
    requires 257 <= z < LENGTH_SYMBOLS && |dl| <= DISTANCE_SYMBOLS
    ensures r != Endless && (r.Done? ==> r.p > p && out <= r.out)
  {
    var len := BaseLength(z) + Bits(data, p, ExtraLengthBits(z));
    var p1 := p + ExtraLengthBits(z);
    var d := SymbolFrom(data, p1, dl);
    if d < 0 then Rejected
    else
      var p2 := p1 + dl[d];
      var dist := BaseDistance(d) + Bits(data, p2, ExtraDistanceBits(d));
      if dist > |out| then Rejected
      else if dist == 0 && len > 0 then Unspecified
      else Done(p2 + ExtraDistanceBits(d), Copied(out, dist, len))
  }

  function Copied(out: seq<byte>, dist: nat, len: nat): (r: seq<byte>)
    requires len > 0 ==> 1 <= dist <= |out|
    ensures |r| == |out| + len && out <= r
  {
    if len == 0 then out else CopyBack(out, dist, len)
  }

  // Past the end of the input

  lemma {:induction false} ZeroBits(data: seq<byte>, p: nat, n: nat)
    requires p >= 8 * |data|
    ensures Bits(data, p, n) == 0
    decreases n
  {
    if n > 0 {
      ZeroBits(data, p + 1, n - 1);
    }
  }

  lemma SameSymbol(data: seq<byte>, p: nat, p1: nat, lens: seq<nat>)
    requires p >= 8 * |data| && p1 >= 8 * |data|
    ensures SymbolFrom(data, p, lens) == SymbolFrom(data, p1, lens)
  {
    hide Bits, Symbol;
    ZeroBits(data, p, 16);
    ZeroBits(data, p1, 16);
  }

  lemma SameMatch(data: seq<byte>, p: nat, out: seq<byte>, p1: nat, out1: seq<byte>, dl: seq<nat>, z: nat)
    requires 257 <= z < LENGTH_SYMBOLS && |dl| <= DISTANCE_SYMBOLS
    requires p >= 8 * |data| && p1 >= 8 * |data| && |out| <= |out1|
    requires MatchPart(data, p, out, dl, z).Done?
    ensures MatchPart(data, p1, out1, dl, z).Done?
    ensures |MatchPart(data, p1, out1, dl, z).out| - |out1| == |MatchPart(data, p, out, dl, z).out| - |out|
  {
    hide Bits, SymbolFrom, BaseLength, BaseDistance, ExtraLengthBits, ExtraDistanceBits, Copied;
    var e := ExtraLengthBits(z);
    ZeroBits(data, p, e);
    ZeroBits(data, p1, e);
    SameSymbol(data, p + e, p1 + e, dl);
    var d := SymbolFrom(data, p + e, dl);
    ZeroBits(data, p + e + dl[d], ExtraDistanceBits(d));
    ZeroBits(data, p1 + e + dl[d], ExtraDistanceBits(d));
  }

  /** Behind the input, a block without end adds output with every symbol and stays without end. */
  lemma EndlessStays(data: seq<byte>, p: nat, out: seq<byte>, ll: seq<nat>, dl: seq<nat>)
    requires |ll| <= LENGTH_SYMBOLS && |dl| <= DISTANCE_SYMBOLS
    requires p > 8 * |data| && Block(data, p, out, ll, dl) == Endless
    ensures var z := SymbolFrom(data, p, ll);
            z != 256 && OneSymbol(data, p, out, ll, dl, z).Done? &&
            var r := OneSymbol(data, p, out, ll, dl, z);
            |r.out| > |out| && Block(data, r.p, r.out, ll, dl) == Endless
  {
    hide Bits, SymbolFrom, MatchPart;
    var z := SymbolFrom(data, p, ll);
    var r := OneSymbol(data, p, out, ll, dl, z);
    SameSymbol(data, p, r.p, ll);
    if z > 256 {
      SameMatch(data, p + ll[z], out, r.p + ll[z], r.out, dl, z);
    }
  }

  // Code lengths of dynamic blocks (section 3.2.7)

  const LENGTH_ORDER: seq<nat> := [16, 17, 18, 0, 8, 7, 9, 6, 10, 5, 11, 4, 12, 3, 13, 2, 14, 1, 15]

  /** The program's array of code lengths has room for one operation more than there can be. */
  const ROOM: nat := 286 + 32 + 137

  datatype CodeLengths = Lens(p: nat, lens: seq<nat>) | BadLens | UnspecifiedLens

  /** Three bits each for the first `n` lengths in their fixed order, zero for the others. */
  function CodeLengthLens(data: seq<byte>, p: nat, n: nat): (lens: seq<nat>)
    requires n <= 19
    ensures |lens| == 19
    ensures forall i :: 0 <= i < 19 ==> lens[i] <= 7
  {
    if n == 0 then [0, 0, 0, 0, 0, 0, 0, 0, 0, 0, 0, 0, 0, 0, 0, 0, 0, 0, 0]
    else
      assert Pow2(3) == 8;
      CodeLengthLens(data, p, n - 1)[LENGTH_ORDER[n - 1] := Bits(data, p + 3 * (n - 1), 3)]
  }

  function Repeat(v: nat, n: nat): (s: seq<nat>)
    ensures |s| == n
    ensures forall i :: 0 <= i < n ==> s[i] == v
  {
    if n == 0 then [] else Repeat(v, n - 1) + [v]
  }

  function Extended(acc: seq<nat>, v: nat, n: nat): (r: seq<nat>)
    requires Lengths(acc) && v <= MAX_BITS
    ensures |r| == |acc| + n && Lengths(r)
  {
    acc + Repeat(v, n)
  }

  /** The extra bits of a symbol of the code length alphabet. */
  function RunBits(c: nat): nat {
    if c < 16 then 0 else if c == 16 then 2 else if c == 17 then 3 else 7
  }

  /** What such a symbol adds: a length, the last length again, or zeros. */
  function Applied(acc: seq<nat>, c: nat, extra: nat): (lens: seq<nat>)
    requires c <= 18 && Lengths(acc) && (c == 16 ==> acc != [])
    ensures |lens| > |acc| && Lengths(lens)
  {
    if c < 16 then Extended(acc, c, 1)
    else if c == 16 then Extended(acc, acc[|acc| - 1], extra + 3)
    else if c == 17 then Extended(acc, 0, extra + 3)
    else Extended(acc, 0, extra + 11)
  }

  /** One symbol of the code length alphabet, whose extra bits are at `p`. */
  function Run(data: seq<byte>, p: nat, c: nat, acc: seq<nat>): (r: (nat, seq<nat>))
    requires c <= 18 && Lengths(acc) && (c == 16 ==> acc != [])
    ensures r.0 >= p && |r.1| > |acc| && Lengths(r.1)
  {
    (p + RunBits(c), Applied(acc, c, Bits(data, p, RunBits(c))))
  }

  ghost function ReadLens(data: seq<byte>, p: nat, cl: seq<nat>, n: nat, acc: seq<nat>): (r: CodeLengths)
    requires Lengths(acc) && |cl| <= 19
    ensures r.Lens? ==> |r.lens| == n && Lengths(r.lens) && r.p >= p
    decreases n - |acc|
  {
    if |acc| == n then Lens(p, acc)
    else if |acc| > n then BadLens
    else
      var c := SymbolFrom(data, p, cl);
      if c < 0 || (c == 16 && acc == []) then UnspecifiedLens
      else
        var (p1, acc1) := Run(data, p + cl[c], c, acc);
        if |acc1| > ROOM then UnspecifiedLens else ReadLens(data, p1, cl, n, acc1)
  }

  /** The code lengths of both alphabets, one after the other. */
  ghost function DynamicLens(data: seq<byte>, p: nat, hlit: nat, hdist: nat): (r: CodeLengths)
    ensures r.Lens? ==> r.p > p && |r.lens| == hlit + hdist && Lengths(r.lens)
  {
    var hclen := Bits(data, p + 10, 4) + 4;
    assert Pow2(4) == 16;
    var cl := CodeLengthLens(data, p + 14, hclen);
    if !Fits(cl) then BadLens else ReadLens(data, p + 14 + 3 * hclen, cl, hlit + hdist, [])
  }

  ghost function DynamicBlock(data: seq<byte>, p: nat, out: seq<byte>): (r: Inflated)
    ensures r.Done? ==> r.p > p && out <= r.out
  {
    var hlit, hdist := Bits(data, p, 5) + 257, Bits(data, p + 5, 5) + 1;
    assert Pow2(5) == 32;
    match DynamicLens(data, p, hlit, hdist)
    case UnspecifiedLens => Unspecified
    case BadLens => Rejected
    case Lens(p1, lens) => CodedBlock(data, p1, out, lens[..hlit], lens[hlit..])
  }

  ghost function CodedBlock(data: seq<byte>, p: nat, out: seq<byte>, ll: seq<nat>, dl: seq<nat>): (r: Inflated)
    requires Lengths(ll) && Lengths(dl) && |ll| <= LENGTH_SYMBOLS && |dl| <= DISTANCE_SYMBOLS
    ensures r.Done? ==> r.p > p && out <= r.out
  {
    if !Fits(ll) || !Fits(dl) then Rejected else Block(data, p, out, ll, dl)
  }

  // Fixed codes (section 3.2.6)

  const FIXED_LENGTHS: seq<nat> := Repeat(8, 144) + Repeat(9, 112) + Repeat(7, 24) + Repeat(8, 8)
  const FIXED_DISTANCES: seq<nat> := Repeat(5, 32)

  ghost function FixedBlock(data: seq<byte>, p: nat, out: seq<byte>): (r: Inflated)
    ensures r.Done? ==> r.p > p && out <= r.out
  {
    Block(data, p, out, FIXED_LENGTHS, FIXED_DISTANCES)
  }

  // Stored blocks (section 3.2.4)

  function StoredBlock(data: seq<byte>, p: nat, out: seq<byte>): (r: Inflated)
    ensures r.Done? ==> r.p > p && out <= r.out
  {
    var q := (p + 7) / 8;
    var len, nlen := Bits(data, 8 * q, 16), Bits(data, 8 * q + 16, 16);
    if nlen != 0xffff - len then Rejected
    else if q + 4 + len > |data| then Rejected
    else Done(8 * (q + 4 + len), out + data[q + 4..q + 4 + len])
  }

  // Streams (section 3.2.3)

  ghost function OneBlock(data: seq<byte>, p: nat, out: seq<byte>): (r: Inflated)
    ensures r.Done? ==> r.p > p && out <= r.out
  {
    var kind := Bits(data, p + 1, 2);
    if kind == 0 then StoredBlock(data, p + 3, out)
    else if kind == 1 then FixedBlock(data, p + 3, out)
    else if kind == 2 then DynamicBlock(data, p + 3, out)
    else Rejected
  }

  /** Behind the input there is only a stored block whose length fails its complement. */
  lemma NoBlockPastEnd(data: seq<byte>, p: nat, out: seq<byte>)
    requires p >= 8 * |data|
    ensures OneBlock(data, p, out) == Rejected
  {
    hide Bits;
    var q := (p + 3 + 7) / 8;
    ZeroBits(data, p + 1, 2);
    ZeroBits(data, 8 * q, 16);
    ZeroBits(data, 8 * q + 16, 16);
  }

  ghost function Blocks(data: seq<byte>, p: nat, out: seq<byte>): (r: Inflated)
    ensures r.Done? ==> out <= r.out
    decreases Left(data, p)
  {
    match OneBlock(data, p, out)
    case Done(p1, out1) =>
      if Bits(data, p, 1) == 1 then Done(p1, out1)
      else if p >= 8 * |data| then NoBlockPastEnd(data, p, out); Rejected
      else Blocks(data, p1, out1)
    case other => other
  }

  function ByteAt(data: seq<byte>, i: nat): (b: nat)
    ensures b < 256
  {
    if i < |data| then data[i] else 0
  }

  /** A zlib header (section 2.2 of RFC 1950) without a preset dictionary, then the blocks. */
  ghost function Zlib(data: seq<byte>): Inflated {
    var cmf, flg := ByteAt(data, 0), ByteAt(data, 1);
    if (cmf * 256 + flg) % 31 != 0 || flg / 32 % 2 == 1 || cmf % 16 != 8 then Rejected
    else Blocks(data, 16, [])
  }
}
