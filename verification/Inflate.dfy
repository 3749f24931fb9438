/** stb_image's zlib decoder: a bit reservoir in front of the input bytes, table-driven
    Huffman decoding, and an output buffer that may grow. */
module Inflate {
  import opened Basics
  import opened Bytes
  import opened Powers
  import opened BitReversal
  import opened Huffman
  import opened HuffmanTable
  import opened InflateFormat
  import opened InflateBits

  class ZBuf {
    const data: seq<byte>
    var zbuffer: nat
    var numBits: nat
    var codeBuffer: nat

    var zout: seq<byte>
    var limit: nat
    const expandable: bool

    const zLength: ZHuffman
    const zDistance: ZHuffman

    /** The position of the next unread bit. */
    ghost var p: nat

    constructor (data: seq<byte>, limit: nat, expandable: bool)
      requires expandable ==> limit > 0
      ensures this.data == data && this.limit == limit && this.expandable == expandable
      ensures Valid() && p == 0 && numBits == 0 && zout == []
      ensures fresh(zLength) && fresh(zDistance)
    {
      this.data := data;
      zbuffer := 0;
      numBits := 0;
      codeBuffer := 0;
      zout := [];
      this.limit := limit;
      this.expandable := expandable;
      zLength := new ZHuffman();
      zDistance := new ZHuffman();
      p := 0;
    }

    /** The reservoir holds the next `numBits` bits of the padded input, and ends at a byte
        boundary: behind it come the bytes from `zbuffer` on. */
    ghost predicate Reservoir()
      reads this`zbuffer, this`numBits, this`codeBuffer, this`p
    {
      && numBits <= 32
      && (p + numBits) % 8 == 0
      && zbuffer == Min((p + numBits) / 8, |data|)
      && codeBuffer == Bits(data, p, numBits)
    }

    ghost predicate Valid()
      reads this, zLength, zDistance
    {
      && Reservoir()
      && |zout| <= limit && (expandable ==> limit > 0)
      && zLength != zDistance && zLength.Sized() && zDistance.Sized()
    }

    method Zget8() returns (b: nat)
      requires zbuffer <= |data|
      modifies this`zbuffer
      ensures b == ByteAt(data, old(zbuffer))
      ensures zbuffer == Min(old(zbuffer) + 1, |data|)
    {
      if zbuffer >= |data| {
        return 0;
      }
      b := data[zbuffer];
      zbuffer := zbuffer + 1;
    }

    /** Fills the reservoir to more than 24 bits; the added bytes never overflow 32. */
    method FillBits()
      requires Reservoir() && numBits <= 24
      modifies this`zbuffer, this`numBits, this`codeBuffer
      ensures Reservoir() && numBits > 24
    {
      hide Bits, Pow2;
      while true
        invariant Reservoir() && numBits <= 24
        decreases 32 - numBits
      {
        ghost var q := (p + numBits) / 8;
        var b := Zget8();
        AddedByte(data, p, numBits, q);
        codeBuffer := codeBuffer + b * Pow2(numBits);
        numBits := numBits + 8;
        if numBits > 24 {
          break;
        }
      }
    }

    /** Takes the next `n` bits. */
    method Zreceive(n: nat) returns (k: nat)
      requires Reservoir() && n <= 16
      modifies this`zbuffer, this`numBits, this`codeBuffer, this`p
      ensures Reservoir() && p == old(p) + n && k == Bits(data, old(p), n)
      ensures numBits <= 32 - n
    {
      hide Bits, Pow2;
      if numBits < n {
        FillBits();
      }
      BitsTake(data, p, n, numBits);
      k := codeBuffer % Pow2(n);
      codeBuffer := codeBuffer / Pow2(n);
      numBits := numBits - n;
      p := p + n;
    }

    /** Decodes the next symbol, by the fast table or by searching the code ranges. */
    method HuffmanDecode(z: ZHuffman, ghost lens: seq<nat>) returns (sym: int)
      requires Reservoir() && z.Represents(lens)
      modifies this`zbuffer, this`numBits, this`codeBuffer, this`p
      ensures Reservoir()
      ensures sym == SymbolFrom(data, old(p), lens)
      ensures sym >= 0 ==> p == old(p) + lens[sym]
    {
      hide Bits, Pow2, RangesFor, SymbolsFor, FastFor, Fits, Lengths, Reverse, End, Start, Before, Symbol, WordOf,
           BitReverse;
      if numBits < 16 {
        FillBits();
      }
      ghost var v := Bits(data, p, 16);
      SixteenBits(data, p, numBits);
      assert codeBuffer % 0x1_0000 == v && codeBuffer % FAST_SIZE == v % FAST_SIZE;
      FastSized(lens, |lens|, z.fast);
      var b := z.fast[codeBuffer % FAST_SIZE];
      if b < NO_ENTRY {
        FastLookup(lens, v, z.fast, z.size, z.value);
        var s := z.size[b];
        TakeCode(s);
        return z.value[b];
      }
      FastMiss(lens, v, z.fast);
      var k := BitReverse(WordOf(codeBuffer, 16), 16);
      ReversedBuffer(codeBuffer);
      var s := ZFAST_BITS + 1;
      ReverseBound(v);
      Ranges(lens, ZFAST_BITS, z.firstcode, z.maxcode, z.firstsymbol);
      while k >= z.maxcode[s]
        invariant ZFAST_BITS + 1 <= s <= 16 && k >= End(lens, s - 1)
        invariant |z.maxcode| == 17 && z.maxcode[16] == 0x1_0000
        decreases 16 - s
        modifies {}
      {
        Ranges(lens, s, z.firstcode, z.maxcode, z.firstsymbol);
        s := s + 1;
      }
      if s == 16 {
        NoSymbol(lens, k);
        return -1;
      }
      Ranges(lens, s, z.firstcode, z.maxcode, z.firstsymbol);
      SlowLookup(lens, k, s, z.size, z.value);
      b := k / Pow2(16 - s) - z.firstcode[s] + z.firstsymbol[s];
      TakeCode(s);
      sym := z.value[b];
    }

    method TakeCode(s: nat)
      requires Reservoir() && s <= 16 <= numBits
      modifies this`numBits, this`codeBuffer, this`p
      ensures Reservoir() && p == old(p) + s
    {
      hide Bits, Pow2;
      BitsTake(data, p, s, numBits);
      codeBuffer := codeBuffer / Pow2(s);
      numBits := numBits - s;
      p := p + s;
    }

    /** Makes room for `n` more bytes, by doubling; only a growing buffer can. */
    method Expand(n: nat) returns (ok: bool)
      requires |zout| <= limit && (expandable ==> limit > 0)
      modifies this`limit
      ensures ok == expandable
      ensures if ok then limit >= old(limit) && |zout| + n <= limit else limit == old(limit)
    {
      if !expandable {
        return false;
      }
      while |zout| + n > limit
        invariant limit >= old(limit)
        decreases |zout| + n - limit
      {
        limit := limit * 2;
      }
      ok := true;
    }

    method MakeRoom(n: nat) returns (ok: bool)
      requires |zout| <= limit && (expandable ==> limit > 0)
      modifies this`limit
      ensures ok == (expandable || |zout| + n <= old(limit))
      ensures ok ==> |zout| + n <= limit
      ensures limit >= old(limit) && (!expandable ==> limit == old(limit))
    {
      ok := true;
      if |zout| + n > limit {
        ok := Expand(n);
      }
    }

    /** A growing buffer needs an end of the output. */
    ghost predicate Decodable(want: Inflated) {
      want != Unspecified && (expandable ==> want != Endless)
    }

    /** What the result of decoding a part of the stream must be: success with exactly the
        wanted output, or failure because the stream is bad or a fixed buffer is too small. */
    ghost predicate Meets(ok: bool, want: Inflated, limit0: nat)
      reads this
    {
      && limit >= limit0 && (!expandable ==> limit == limit0)
      && if ok then want == Done(p, zout)
         else want == Rejected || (!expandable && TooLong(want, limit0))
    }

    method CopyOut(dist: nat, len: nat)
      requires len > 0 ==> 1 <= dist <= |zout|
      modifies this`zout
      ensures zout == Copied(old(zout), dist, len)
    {
      for i := 0 to len
        invariant zout == Copied(old(zout), dist, i)
      {
        zout := zout + [zout[|zout| - dist]];
      }
    }

    method ParseHuffmanBlock(ghost ll: seq<nat>, ghost dl: seq<nat>) returns (ok: bool)
      requires Valid() && zLength.Represents(ll) && zDistance.Represents(dl)
      requires |ll| <= LENGTH_SYMBOLS && |dl| <= DISTANCE_SYMBOLS && Decodable(Block(data, p, zout, ll, dl))
      modifies this
      ensures Valid() && Meets(ok, old(Block(data, p, zout, ll, dl)), old(limit))
    {
      hide Bits, Pow2, SymbolFrom, MatchPart, ZHuffman.Represents, Reservoir;
      ghost var want := Block(data, p, zout, ll, dl);
      while true
        invariant Valid() && zLength.Represents(ll) && zDistance.Represents(dl)
        invariant Block(data, p, zout, ll, dl) == want
        invariant limit >= old(limit) && (!expandable ==> limit == old(limit))
        decreases Left(data, p), limit - |zout|
      {
        ghost var p0, out0 := p, zout;
        if want == Endless && p > 8 * |data| {
          EndlessStays(data, p, zout, ll, dl);
        }
        var z := HuffmanDecode(zLength, ll);
        if z < 256 {
          if z < 0 {
            return false;
          }
          var room := MakeRoom(1);
          if !room {
            return false;
          }
          zout := zout + [z];
        } else {
          if z == 256 {
            return true;
          }
          var fine := ParseMatch(z, dl);
          if !fine {
            return false;
          }
        }
        assert OneSymbol(data, p0, out0, ll, dl, z) == Done(p, zout);
      }
    }

    /** A match whose length symbol has been read. */
    method ParseMatch(z: nat, ghost dl: seq<nat>) returns (ok: bool)
      requires Valid() && zDistance.Represents(dl)
      requires 257 <= z < LENGTH_SYMBOLS && |dl| <= DISTANCE_SYMBOLS
      requires MatchPart(data, p, zout, dl, z) != Unspecified
      modifies this
      ensures Valid() && Meets(ok, old(MatchPart(data, p, zout, dl, z)), old(limit))
    {
      hide Bits, Pow2, SymbolFrom, Copied, BaseLength, BaseDistance, ExtraLengthBits, ExtraDistanceBits,
           ZHuffman.Represents, Reservoir;
      var len := BaseLength(z);
      var extra := Zreceive(ExtraLengthBits(z));
      len := len + extra;
      var d := HuffmanDecode(zDistance, dl);
      if d < 0 {
        return false;
      }
      var dist := BaseDistance(d);
      extra := Zreceive(ExtraDistanceBits(d));
      dist := dist + extra;
      if |zout| < dist {
        return false;
      }
      ok := MakeRoom(len);
      if ok {
        CopyOut(dist, len);
      }
    }

    /** The head of a dynamic block: three counts and the code of the code lengths. */
    method ReadDynamicHead() returns (hlit: nat, hdist: nat, hclen: nat, sizes: seq<nat>)
      requires Valid()
      modifies this`zbuffer, this`numBits, this`codeBuffer, this`p
      ensures Valid() && p == old(p) + 14 + 3 * hclen
      ensures hlit == Bits(data, old(p), 5) + 257 && hdist == Bits(data, old(p) + 5, 5) + 1
      ensures hclen == Bits(data, old(p) + 10, 4) + 4 <= 19 && hlit <= 288 && hdist <= 32
      ensures sizes == CodeLengthLens(data, old(p) + 14, hclen)
    {
      hide Bits, Pow2, CodeLengthLens;
      ghost var p0 := p;
      hlit := Zreceive(5);
      hlit := hlit + 257;
      hdist := Zreceive(5);
      hdist := hdist + 1;
      hclen := Zreceive(4);
      Pow2Small();
      hclen := hclen + 4;

      NoCodeLengths(data, p0 + 14);
      sizes := CodeLengthLens(data, 0, 0);
      for i := 0 to hclen
        invariant Valid() && p == p0 + 14 + 3 * i
        invariant sizes == CodeLengthLens(data, p0 + 14, i)
      {
        var s := Zreceive(3);
        OneMoreLength(data, p0 + 14, i);
        sizes := sizes[LENGTH_ORDER[i] := s];
      }
    }

    /** Reads the code lengths of a dynamic block and builds its two tables. */
    method ComputeHuffmanCodes() returns (ok: bool, ghost ll: seq<nat>, ghost dl: seq<nat>)
      requires Valid() && Decodable(DynamicBlock(data, p, zout))
      modifies this, zLength, zDistance
      ensures Valid() && zout == old(zout) && limit == old(limit)
      ensures !ok ==> old(DynamicBlock(data, p, zout)) == Rejected
      ensures ok ==> zLength.Represents(ll) && zDistance.Represents(dl)
      ensures ok ==> |ll| <= LENGTH_SYMBOLS && |dl| <= DISTANCE_SYMBOLS
      ensures ok ==> Block(data, p, zout, ll, dl) == old(DynamicBlock(data, p, zout))
    {
      hide Bits, Pow2, ZHuffman.Represents, Reservoir, Block, Fits, ReadLens, CodeLengthLens, Lengths;
      ll, dl := [], [];
      var hlit, hdist, hclen, codelengthSizes := ReadDynamicHead();
      var zCodelength := new ZHuffman();
      SmallLengths(codelengthSizes);
      ok := zCodelength.Build(codelengthSizes);
      if !ok {
        return;
      }
      var lencodes: seq<nat>;
      NoLengths();
      ghost var want := ReadLens(data, p, codelengthSizes, hlit + hdist, []);
      ok, lencodes := ReadCodeLengths(zCodelength, codelengthSizes, hlit + hdist, want);
      if !ok {
        return;
      }
      PartsOfLengths(lencodes, hlit);
      ll, dl := lencodes[..hlit], lencodes[hlit..];
      ok := zLength.Build(lencodes[..hlit]);
      if !ok {
        return;
      }
      ok := zDistance.Build(lencodes[hlit..]);
    }

    /** One code length symbol: a length, or a repetition counted by extra bits. */
    method ReadRun(c: nat, acc: seq<nat>) returns (lencodes: seq<nat>)
      requires Reservoir() && c <= 18 && Lengths(acc) && (c == 16 ==> acc != [])
      modifies this`zbuffer, this`numBits, this`codeBuffer, this`p
      ensures Reservoir() && (p, lencodes) == Run(data, old(p), c, acc)
    {
      hide Bits, Pow2, Extended, Reservoir;
      lencodes := acc;
      if c < 16 {
        lencodes := Extended(lencodes, c, 1);
      } else if c == 16 {
        var r := Zreceive(2);
        lencodes := Extended(lencodes, lencodes[|lencodes| - 1], r + 3);
      } else if c == 17 {
        var r := Zreceive(3);
        lencodes := Extended(lencodes, 0, r + 3);
      } else {
        var r := Zreceive(7);
        lencodes := Extended(lencodes, 0, r + 11);
      }
    }

    /** The run-length coded sequence of code lengths. */
    method ReadCodeLengths(z: ZHuffman, ghost cl: seq<nat>, n: nat, ghost want: CodeLengths)
      returns (ok: bool, lencodes: seq<nat>)
      requires Valid() && z.Represents(cl) && |cl| <= 19
      requires Lengths([]) && ReadLens(data, p, cl, n, []) == want != UnspecifiedLens
      modifies this`zbuffer, this`numBits, this`codeBuffer, this`p
      ensures Valid() && p >= old(p)
      ensures if ok then want == Lens(p, lencodes) else want == BadLens
    {
      hide Bits, Pow2, ZHuffman.Represents, Reservoir, Run, Lengths;
      lencodes := [];
      while |lencodes| < n
        invariant Valid() && p >= old(p)
        invariant Lengths(lencodes) && ReadLens(data, p, cl, n, lencodes) == want
        decreases n - |lencodes|
      {
        var c := HuffmanDecode(z, cl);
        lencodes := ReadRun(c, lencodes);
      }
      ok := |lencodes| == n;
    }

    /** A stored block: the reservoir is drained to the byte boundary, its whole bytes are the
        beginning of the length fields, and the data is copied from the input. */
    method ParseUncompressedBlock() returns (ok: bool)
      requires Valid() && numBits < 32
      modifies this`zbuffer, this`numBits, this`codeBuffer, this`p, this`zout, this`limit
      ensures Valid() && Meets(ok, old(StoredBlock(data, p, zout)), old(limit))
    {
      hide Bits, Pow2, ByteAt, StoredBlock;
      ghost var p0, q, want := p, (p + 7) / 8, StoredBlock(data, p, zout);
      var header := DrainHeader();
      var len := header[1] * 256 + header[0];
      var nlen := header[3] * 256 + header[2];
      StoredHeader(data, q, len, nlen);
      StoredCases(data, p0, zout, len, nlen);
      if nlen != 0xffff - len {
        return false;
      }
      if zbuffer + len > |data| {
        return false;
      }
      assert zbuffer == q + 4;
      assert want == Done(8 * (q + 4 + len), zout + data[q + 4..q + 4 + len]);
      ok := CopyStored(len);
    }

    /** Copies `len` bytes from the input, with nothing left in the reservoir. */
    method CopyStored(len: nat) returns (ok: bool)
      requires Valid() && numBits == 0 && zbuffer + len <= |data| && p == 8 * zbuffer
      modifies this`zbuffer, this`p, this`zout, this`limit
      ensures Valid() && Meets(ok, Done(8 * (old(zbuffer) + len), old(zout) + data[old(zbuffer)..old(zbuffer) + len]),
                               old(limit))
    {
      hide Bits, Pow2;
      ok := MakeRoom(len);
      if ok {
        zout := zout + data[zbuffer..zbuffer + len];
        zbuffer := zbuffer + len;
        EmptyReservoir(data, p);
        p := p + 8 * len;
        EmptyReservoir(data, p);
      }
    }

    /** Takes a whole byte from the bottom of the reservoir. */
    method DrainOne() returns (b: nat)
      requires Reservoir() && numBits >= 8 && p % 8 == 0
      modifies this`numBits, this`codeBuffer, this`p
      ensures Reservoir() && p == old(p) + 8 && numBits == old(numBits) - 8
      ensures b == ByteAt(data, old(p) / 8)
    {
      hide Bits, ByteAt;
      DrainByte(data, p / 8, numBits);
      b := codeBuffer % 256;
      codeBuffer := codeBuffer / 256;
      numBits := numBits - 8;
      p := p + 8;
    }

    /** Reads a byte behind an empty reservoir. */
    method FetchOne() returns (b: nat)
      requires Reservoir() && numBits == 0
      modifies this`zbuffer, this`p
      ensures Reservoir() && p == old(p) + 8
      ensures b == ByteAt(data, old(p) / 8)
    {
      hide Bits, ByteAt;
      PastTheEnd(data, p / 8);
      b := Zget8();
      p := p + 8;
      EmptyReservoir(data, p - 8);
      EmptyReservoir(data, p);
    }

    /** Discards the bits up to the byte boundary. */
    method Align()
      requires Reservoir() && numBits < 32
      modifies this`zbuffer, this`numBits, this`codeBuffer, this`p
      ensures Reservoir() && p == 8 * ((old(p) + 7) / 8)
      ensures numBits % 8 == 0 && numBits <= 24
    {
      hide Bits, Pow2;
      AlignedUp(p, numBits);
      if numBits % 8 != 0 {
        var _ := Zreceive(numBits % 8);
      }
    }

    /** Discards to the byte boundary, drains the at most three whole bytes left in the
        reservoir and reads on until there are four. */
    method DrainHeader() returns (header: seq<nat>)
      requires Reservoir() && numBits < 32
      modifies this`zbuffer, this`numBits, this`codeBuffer, this`p
      ensures Reservoir() && numBits == 0 && p == 8 * ((old(p) + 7) / 8 + 4)
      ensures |header| == 4
      ensures forall i :: 0 <= i < 4 ==> header[i] == ByteAt(data, (old(p) + 7) / 8 + i)
    {
      hide Bits, Pow2, ByteAt, Reservoir;
      ghost var q := (p + 7) / 8;
      Align();
      header := [];
      while numBits > 0
        invariant Reservoir() && numBits % 8 == 0
        invariant |header| + numBits / 8 <= 3
        invariant p == 8 * (q + |header|)
        invariant forall i :: 0 <= i < |header| ==> header[i] == ByteAt(data, q + i)
        decreases numBits
      {
        assert p / 8 == q + |header|;
        var b := DrainOne();
        header := header + [b];
      }
      while |header| < 4
        invariant Reservoir() && numBits == 0 && |header| <= 4
        invariant p == 8 * (q + |header|)
        invariant forall i :: 0 <= i < |header| ==> header[i] == ByteAt(data, q + i)
      {
        assert p / 8 == q + |header|;
        var b := FetchOne();
        header := header + [b];
      }
    }

    method ParseZlibHeader() returns (ok: bool)
      requires Valid() && p == 0 && numBits == 0
      modifies this`zbuffer, this`p
      ensures Valid() && p == 16 && numBits == 0
      ensures var cmf, flg := ByteAt(data, 0), ByteAt(data, 1);
              ok <==> (cmf * 256 + flg) % 31 == 0 && flg / 32 % 2 == 0 && cmf % 16 == 8
    {
      hide Bits;
      var cmf := Zget8();
      var cm := cmf % 16;
      var flg := Zget8();
      p := 16;
      EmptyReservoir(data, 0);
      EmptyReservoir(data, 16);
      if (cmf * 256 + flg) % 31 != 0 {
        return false;
      }
      if flg / 32 % 2 == 1 {
        return false;
      }
      if cm != 8 {
        return false;
      }
      ok := true;
    }

    /** One block: three header bits, then its contents. */
    method ParseBlock() returns (ok: bool, final: bool)
      requires Valid() && Decodable(OneBlock(data, p, zout))
      modifies this, zLength, zDistance
      ensures Valid() && Meets(ok, old(OneBlock(data, p, zout)), old(limit))
      ensures final == (Bits(data, old(p), 1) == 1)
    {
      hide Bits, Pow2, ZHuffman.Represents, Reservoir, Block, DynamicBlock, StoredBlock;
      var f := Zreceive(1);
      final := f == 1;
      var kind := Zreceive(2);
      if kind == 0 {
        ok := ParseUncompressedBlock();
      } else if kind == 1 {
        FixedFit();
        ok := zLength.Build(FIXED_LENGTHS);
        ok := zDistance.Build(FIXED_DISTANCES);
        ok := ParseHuffmanBlock(FIXED_LENGTHS, FIXED_DISTANCES);
      } else if kind == 2 {
        ghost var ll, dl;
        ok, ll, dl := ComputeHuffmanCodes();
        if ok {
          ok := ParseHuffmanBlock(ll, dl);
        }
      } else {
        ok := false;
      }
    }

    /** Decodes a whole stream, with or without the zlib header. */
    method ParseZlib(parseHeader: bool) returns (ok: bool)
      requires Valid() && p == 0 && numBits == 0 && zout == []
      requires Decodable(if parseHeader then Zlib(data) else Blocks(data, 0, []))
      modifies this, zLength, zDistance
      ensures Valid()
      ensures Meets(ok, if parseHeader then Zlib(data) else Blocks(data, 0, []), old(limit))
    {
      hide Bits, OneBlock;
      ghost var want := if parseHeader then Zlib(data) else Blocks(data, 0, []);
      if parseHeader {
        ok := ParseZlibHeader();
        if !ok {
          return;
        }
      }
      var final := false;
      ok := true;
      while !final
        invariant Valid() && ok
        invariant limit >= old(limit) && (!expandable ==> limit == old(limit))
        invariant if final then want == Done(p, zout) else Blocks(data, p, zout) == want
        decreases !final, Left(data, p)
      {
        if p >= 8 * |data| {
          NoBlockPastEnd(data, p, zout);
        }
        ok, final := ParseBlock();
        if !ok {
          return;
        }
      }
    }
  }

  /** Output that a buffer of `limit` bytes cannot hold. */
  ghost predicate TooLong(want: Inflated, limit: nat) {
    want == Endless || (want.Done? && |want.out| > limit)
  }

  lemma AddedByte(data: seq<byte>, p: nat, n: nat, q: nat)
    requires p + n == 8 * q
    ensures Bits(data, p, n) + ByteAt(data, q) * Pow2(n) == Bits(data, p, n + 8)
    ensures q > |data| ==> ByteAt(data, q) == ByteAt(data, |data|)
  {
    hide Bits, Pow2;
    BitsSplit(data, p, n, 8);
    AlignedByte(data, q);
  }

  lemma SixteenBits(data: seq<byte>, p: nat, n: nat)
    requires n >= 16
    ensures Bits(data, p, n) % 0x1_0000 == Bits(data, p, 16) < 0x1_0000
    ensures Bits(data, p, n) % FAST_SIZE == Bits(data, p, 16) % FAST_SIZE
  {
    hide Bits, Pow2;
    BitsTake(data, p, 16, n);
    Pow2Of16();
    ModOfMultiple(Bits(data, p, n), 128, FAST_SIZE);
  }

  lemma FastSized(lens: seq<nat>, n: nat, fast: seq<nat>)
    requires FastFor(lens, n, fast)
    ensures |fast| == FAST_SIZE
  {
  }

  lemma ReversedBuffer(b: nat)
    ensures BitReverse(WordOf(b, 16), 16) == Reverse(b % 0x1_0000, 16)
  {
    hide BitReverse, WordOf, Reverse, Pow2;
    BitReverseReverses(b, 16);
    ReverseLow(b, 16);
    Pow2Of16();
  }

  lemma ReverseBound(v: nat)
    ensures Reverse(v, 16) < 0x1_0000
  {
    Pow2Of16();
  }

  lemma Ranges(lens: seq<nat>, l: nat, firstcode: seq<nat>, maxcode: seq<nat>, firstsymbol: seq<nat>)
    requires RangesFor(lens, firstcode, maxcode, firstsymbol) && 1 <= l <= 16
    ensures |firstcode| == 16 && |maxcode| == 17 && |firstsymbol| == 16 && maxcode[16] == 0x1_0000
    ensures l <= MAX_BITS ==>
              firstcode[l] == Start(lens, l) && maxcode[l] == End(lens, l) && firstsymbol[l] == Before(lens, l)
  {
  }

  lemma Pow2Small()
    ensures Pow2(4) == 16 && Pow2(5) == 32
  {
    assert Pow2(2) == 4;
    assert Pow2(4) == 16;
  }

  lemma AlignedUp(p: nat, n: nat)
    requires (p + n) % 8 == 0
    ensures p + n % 8 == 8 * ((p + 7) / 8)
  {
  }

  lemma NoCodeLengths(data: seq<byte>, p: nat)
    ensures CodeLengthLens(data, p, 0) == CodeLengthLens(data, 0, 0)
  {
  }

  lemma OneMoreLength(data: seq<byte>, p: nat, i: nat)
    requires i < 19
    ensures LENGTH_ORDER[i] < 19
    ensures CodeLengthLens(data, p, i + 1) == CodeLengthLens(data, p, i)[LENGTH_ORDER[i] := Bits(data, p + 3 * i, 3)]
  {
    hide Bits;
  }

  lemma SmallLengths(lens: seq<nat>)
    requires forall i :: 0 <= i < |lens| ==> lens[i] <= 7
    ensures Lengths(lens)
  {
  }

  lemma NoLengths()
    ensures Lengths([])
  {
  }

  lemma PartsOfLengths(lens: seq<nat>, n: nat)
    requires Lengths(lens) && n <= |lens|
    ensures Lengths(lens[..n]) && Lengths(lens[n..])
  {
  }

  lemma PastTheEnd(data: seq<byte>, i: nat)
    ensures i >= |data| ==> ByteAt(data, i) == ByteAt(data, |data|)
  {
  }

  lemma EmptyReservoir(data: seq<byte>, p: nat)
    ensures Bits(data, p, 0) == 0
  {
  }

  lemma DrainByte(data: seq<byte>, q: nat, n: nat)
    requires n >= 8
    ensures Bits(data, 8 * q, n) % 256 == ByteAt(data, q)
    ensures Bits(data, 8 * q, n) / 256 == Bits(data, 8 * q + 8, n - 8)
  {
    hide Bits;
    BitsTake(data, 8 * q, 8, n);
    AlignedByte(data, q);
    Pow2Of16();
  }

  /** The drained and fetched bytes are the length fields; and if the two agree while they
      reach past the end of the input, the length is not zero. */
  lemma StoredHeader(data: seq<byte>, q: nat, len: nat, nlen: nat)
    requires len == ByteAt(data, q + 1) * 256 + ByteAt(data, q)
    requires nlen == ByteAt(data, q + 3) * 256 + ByteAt(data, q + 2)
    ensures len == Bits(data, 8 * q, 16) && nlen == Bits(data, 8 * q + 16, 16)
    ensures nlen == 0xffff - len && q + 4 > |data| ==> len > 0
  {
    hide Bits;
    AlignedWord(data, q);
    AlignedWord(data, q + 2);
    assert 8 * (q + 2) == 8 * q + 16;
  }

  lemma StoredCases(data: seq<byte>, p: nat, out: seq<byte>, len: nat, nlen: nat)
    requires var q := (p + 7) / 8; len == Bits(data, 8 * q, 16) && nlen == Bits(data, 8 * q + 16, 16)
    ensures var q := (p + 7) / 8;
            StoredBlock(data, p, out) ==
            if nlen != 0xffff - len || q + 4 + len > |data| then Rejected
            else Done(8 * (q + 4 + len), out + data[q + 4..q + 4 + len])
  {
    hide Bits;
  }

  // The fixed codes are complete

  lemma {:induction false} RankOfConcat(a: seq<nat>, b: seq<nat>, l: nat, n: nat)
    requires n <= |b|
    ensures Rank(a + b, l, |a| + n) == Count(a, l) + Rank(b, l, n)
    decreases n
  {
    if n == 0 {
      RankOfPrefix(a, b, l, |a|);
    } else {
      RankOfConcat(a, b, l, n - 1);
    }
  }

  lemma {:induction false} RankOfPrefix(a: seq<nat>, b: seq<nat>, l: nat, n: nat)
    requires n <= |a|
    ensures Rank(a + b, l, n) == Rank(a, l, n)
    decreases n
  {
    if n > 0 {
      RankOfPrefix(a, b, l, n - 1);
    }
  }

  lemma {:induction false} RankOfRepeat(v: nat, n: nat, l: nat, i: nat)
    requires i <= n
    ensures Rank(Repeat(v, n), l, i) == if v == l then i else 0
    decreases i
  {
    if i > 0 {
      RankOfRepeat(v, n, l, i - 1);
    }
  }

  lemma FixedCounts(l: nat)
    ensures Count(FIXED_LENGTHS, l) == (if l == 8 then 152 else if l == 9 then 112 else if l == 7 then 24 else 0)
    ensures Count(FIXED_DISTANCES, l) == if l == 5 then 32 else 0
  {
    hide Rank, Repeat;
    var a, b, c, d := Repeat(8, 144), Repeat(9, 112), Repeat(7, 24), Repeat(8, 8);
    RankOfRepeat(8, 144, l, 144);
    RankOfRepeat(9, 112, l, 112);
    RankOfRepeat(7, 24, l, 24);
    RankOfRepeat(8, 8, l, 8);
    RankOfRepeat(5, 32, l, 32);
    RankOfConcat(a, b, l, 112);
    RankOfConcat(a + b, c, l, 24);
    RankOfConcat(a + b + c, d, l, 8);
  }

  lemma {:induction false} FixedStarts(l: nat)
    requires l >= 1
    ensures Start(FIXED_LENGTHS, l) == (if l <= 7 then 0 else if l == 8 then 48 else if l == 9 then 400 else Pow2(l))
    ensures Start(FIXED_DISTANCES, l) == if l <= 5 then 0 else Pow2(l)
    decreases l
  {
    hide Count;
    if l > 1 {
      FixedStarts(l - 1);
      FixedCounts(l - 1);
      SmallPowers();
    }
  }

  lemma SmallPowers()
    ensures Pow2(5) == 32 && Pow2(6) == 64 && Pow2(7) == 128 && Pow2(8) == 256 && Pow2(9) == 512 && Pow2(10) == 1024
  {
    Pow2Of16();
    assert Pow2(4) == 16 by { Pow2Small(); }
    assert Pow2(9) == 2 * Pow2(8);
  }

  lemma FixedFit()
    ensures Fits(FIXED_LENGTHS) && Fits(FIXED_DISTANCES)
    ensures Lengths(FIXED_LENGTHS) && Lengths(FIXED_DISTANCES)
    ensures |FIXED_LENGTHS| == 288 && |FIXED_DISTANCES| == 32
  {
    hide Start, Count;
    forall l: nat | 1 <= l <= MAX_BITS
      ensures FitsAt(FIXED_LENGTHS, l) && FitsAt(FIXED_DISTANCES, l)
    {
      FixedStarts(l);
      FixedCounts(l);
      SmallPowers();
    }
  }
}
