/** yay0_compress and yay0_decompress, with the bit vectors they write and read. */
module Yay0Codec {
  import opened Basics
  import opened Bytes
  import opened Powers
  import opened Yay0Format
  import opened Yay0RoundTrip

  // Mask bits

  /** Bitwise or with the bit at position `k`. */
  function OrBitAt(b: nat, k: nat): nat {
    if k == 0 then b / 2 * 2 + 1 else OrBitAt(b / 2, k - 1) * 2 + b % 2
  }

  lemma BitAbove(b: nat, k: nat)
    requires k > 0
    ensures Bit(b, k) == Bit(b / 2, k - 1)
  {
  }

  lemma DoubledAndBit(v: nat, bit: nat)
    requires bit <= 1
    ensures (v * 2 + bit) / 2 == v && Bit(v * 2 + bit, 0) == (bit == 1)
  {
  }

  lemma {:induction false} OrBitAtSets(b: nat, k: nat, j: nat)
    ensures Bit(OrBitAt(b, k), j) == (j == k || Bit(b, j))
    decreases k
  {
    hide Bit;
    DoubledAndBit(b / 2, b % 2);
    if k == 0 {
      DoubledAndBit(b / 2, 1);
    } else {
      DoubledAndBit(OrBitAt(b / 2, k - 1), b % 2);
    }
    if j > 0 {
      BitAbove(b, j);
      BitAbove(OrBitAt(b, k), j);
      if k > 0 {
        OrBitAtSets(b / 2, k - 1, j - 1);
      }
    }
  }

  lemma {:induction false} OrBitAtFits(b: nat, k: nat, n: nat)
    requires b < Pow2(n) && k < n
    ensures OrBitAt(b, k) < Pow2(n)
    decreases k
  {
    var h := Pow2(n - 1);
    assert Pow2(n) == 2 * h;
    hide Pow2;
    if k > 0 {
      OrBitAtFits(b / 2, k - 1, n - 1);
      DoubledFits(OrBitAt(b / 2, k - 1), b % 2, h);
    } else {
      DoubledFits(b / 2, 1, h);
    }
  }

  lemma DoubledFits(v: nat, bit: nat, h: nat)
    requires v < h && bit <= 1
    ensures v * 2 + bit < 2 * h
  {
  }

  lemma {:induction false} ZeroHasNoBits(k: nat)
    ensures !Bit(0, k)
  {
    if k > 0 {
      ZeroHasNoBits(k - 1);
    }
  }

  class MaskVectorWriter {
    var data: seq<byte>
    var nextOffset: int
    ghost var bits: seq<bool>

    ghost predicate Valid()
      reads this
    {
      && -1 <= nextOffset <= 7
      && |bits| == 8 * |data| - 1 - nextOffset
      && Packs(data, bits)
    }

    constructor ()
      ensures Valid() && bits == []
    {
      data := [];
      nextOffset := -1;
      bits := [];
    }

    method PushBack(bit: bool)
      requires Valid()
      modifies this
      ensures Valid() && bits == old(bits) + [bit]
    {
      if nextOffset < 0 {
        ZeroByteAdds(data, bits);
        data := data + [0];
        nextOffset := 7;
      }
      WriteBit(data, bits, nextOffset, bit);
      if bit {
        data := data[|data| - 1 := OrBitAt(data[|data| - 1], nextOffset)];
      }
      nextOffset := nextOffset - 1;
      bits := bits + [bit];
    }
  }

  /** The bits so far, with room for at least one more and zeros behind them. */
  ghost predicate Room(data: seq<byte>, bits: seq<bool>) {
    && 8 * |data| - 8 <= |bits| < 8 * |data|
    && (forall i :: 0 <= i < |bits| ==> BitAt(data, i) == bits[i])
    && (forall i :: |bits| <= i < 8 * |data| ==> !BitAt(data, i))
  }

  lemma ZeroByteAdds(data: seq<byte>, bits: seq<bool>)
    requires Packs(data, bits) && |bits| == 8 * |data|
    ensures Room(data + [0], bits)
  {
    var data' := data + [0];
    forall i | 0 <= i < 8 * |data'|
      ensures BitAt(data', i) == (i < |bits| && bits[i])
    {
      if i < |bits| {
        assert BitAt(data, i) == bits[i];
      } else {
        ZeroHasNoBits(7 - i % 8);
      }
    }
  }

  lemma WriteBit(data: seq<byte>, bits: seq<bool>, k: nat, bit: bool)
    requires Room(data, bits) && k < 8 && |bits| == 8 * |data| - 1 - k
    ensures OrBitAt(data[|data| - 1], k) < 256
    ensures Packs(if bit then data[|data| - 1 := OrBitAt(data[|data| - 1], k)] else data, bits + [bit])
  {
    var n, last := |data| - 1, data[|data| - 1];
    assert Pow2(8) == 256;
    OrBitAtFits(last, k, 8);
    var data' := if bit then data[n := OrBitAt(last, k)] else data;
    assert |bits| / 8 == n && 7 - |bits| % 8 == k;
    forall i | 0 <= i < 8 * |data|
      ensures BitAt(data', i) == if i < |bits| then bits[i] else i == |bits| && bit
    {
      assert BitAt(data, i) == if i < |bits| then bits[i] else false;
      if bit && i / 8 == n {
        OrBitAtSets(last, k, 7 - i % 8);
        assert i == |bits| <==> 7 - i % 8 == k;
      }
    }
  }

  class MaskVectorReader {
    const input: seq<byte>
    var offset: nat
    var nextBit: nat
    ghost const start: nat
    ghost var taken: nat

    ghost predicate Valid()
      reads this
    {
      nextBit <= 8 && offset >= start && 8 * (offset - start) + nextBit == taken
    }

    constructor (input: seq<byte>, offset: nat)
      ensures Valid() && this.input == input && start == offset && taken == 0
    {
      this.input := input;
      this.offset := offset;
      nextBit := 0;
      start := offset;
      taken := 0;
    }

    /** The next bit, unless the input ends before it. */
    method PopFront() returns (ok: bool, value: bool)
      requires Valid()
      modifies this
      ensures Valid() && taken == old(taken) + 1
      ensures ok == (start + old(taken) / 8 < |input|)
      ensures ok ==> value == BitAt(input[start..], old(taken))
    {
      if nextBit == 8 {
        nextBit := 0;
        offset := offset + 1;
      }
      ok := offset < |input|;
      value := ok && Bit(input[offset], 7 - nextBit);
      nextBit := nextBit + 1;
      taken := taken + 1;
    }
  }

  // The greedy choice

  /** How far the data at `i` and at `j` agree. */
  function Common(x: seq<byte>, i: nat, j: nat): (n: nat)
    requires i < j <= |x|
    ensures j + n <= |x|
    decreases |x| - j
  {
    if j < |x| && x[i] == x[j] then 1 + Common(x, i + 1, j + 1) else 0
  }

  /** The longest match at `pos`, which may overlap itself, at any offset up to `k`. */
  function Longest(x: seq<byte>, pos: nat, k: nat): nat
    requires k <= pos <= |x|
  {
    if k == 0 then 0 else Max(Longest(x, pos, k - 1), Common(x, pos - k, pos))
  }

  /** The length the compressor chooses at `pos`: the longest match within the window, but
      never more than a link can say, and never the whole of the remaining input. */
  function LinkLength(x: seq<byte>, pos: nat): nat
    requires pos < |x|
  {
    Min(Longest(x, pos, Min(MAX_OFFSET, pos)), Min(MAX_LINK_LEN, |x| - pos - 1))
  }

  lemma {:induction false} CommonAgrees(x: seq<byte>, i: nat, j: nat, n: nat)
    requires i < j <= |x| && n <= Common(x, i, j)
    ensures forall m :: j <= m < j + n ==> x[m] == x[m - (j - i)]
    decreases n
  {
    if n > 0 {
      CommonAgrees(x, i + 1, j + 1, n - 1);
    }
  }

  lemma {:induction false} LongestCovers(x: seq<byte>, pos: nat, k: nat, off: nat)
    requires 1 <= off <= k <= pos <= |x|
    ensures Longest(x, pos, k) >= Common(x, pos - off, pos)
    decreases k
  {
    if off < k {
      LongestCovers(x, pos, k - 1, off);
    }
  }

  /** The tokens are the greedy choice at every position. */
  ghost predicate Greedy(x: seq<byte>, ts: seq<Token>)
    requires ValidTokens(ts)
  {
    ts == [] ||
    var init := ts[..|ts| - 1];
    && Greedy(x, init)
    && |Output(init)| < |x|
    && var len := LinkLength(x, |Output(init)|);
       if len >= 3 then ts[|ts| - 1].Link? && ts[|ts| - 1].len == len
       else ts[|ts| - 1] == Chunk(x[|Output(init)|])
  }

  /** The inner search loop: counts until a mismatch, or one past the longest link, or the
      end of the input. */
  method CountMatch(x: seq<byte>, pos: nat, off: nat) returns (count: nat, maxReached: bool)
    requires 1 <= off <= pos < |x|
    ensures count <= Common(x, pos - off, pos)
    ensures maxReached ==> count > 0 && (count == MAX_LINK_LEN + 1 || (count <= MAX_LINK_LEN && pos + count == |x|))
    ensures !maxReached ==> count == Common(x, pos - off, pos) && count <= MAX_LINK_LEN && pos + count < |x|
  {
    count, maxReached := 0, false;
    while x[pos - off + count] == x[pos + count]
      invariant pos + count < |x| && count <= MAX_LINK_LEN
      invariant count + Common(x, pos - off + count, pos + count) == Common(x, pos - off, pos)
      decreases |x| - count
    {
      count := count + 1;
      if count > MAX_LINK_LEN || pos + count >= |x| {
        maxReached := true;
        break;
      }
    }
  }

  /** The search over offsets, nearest first, which stops at the first match it cannot improve on. */
  method FindLink(x: seq<byte>, pos: nat) returns (count: nat, off: nat)
    requires pos < |x|
    ensures count == LinkLength(x, pos)
    ensures count > 0 ==> 1 <= off <= Min(MAX_OFFSET, pos) && count <= Common(x, pos - off, pos)
  {
    hide Common;
    count, off := 0, 0;
    var offset := 1;
    while offset <= MAX_OFFSET && offset <= pos
      invariant 1 <= offset <= Min(MAX_OFFSET, pos) + 1
      invariant count == Longest(x, pos, offset - 1) && count <= MAX_LINK_LEN && pos + count < |x|
      invariant count > 0 ==> 1 <= off < offset && count <= Common(x, pos - off, pos)
    {
      var n, maxReached := CountMatch(x, pos, offset);
      if maxReached {
        LongestCovers(x, pos, Min(MAX_OFFSET, pos), offset);
        count, off := n - 1, offset;
        return;
      }
      if n > count {
        count, off := n, offset;
      }
      offset := offset + 1;
    }
  }

  // The codec

  /** The tokens so far and the three streams they have been written to. */
  ghost predicate Written(x: seq<byte>, pos: nat, ts: seq<Token>, bits: seq<bool>, links: seq<byte>,
                          chunks: seq<byte>) {
    && pos <= |x|
    && ValidTokens(ts) && Output(ts) == x[..pos]
    && Greedy(x, ts)
    && bits == Masks(ts) && links == Links(ts) && chunks == Chunks(ts)
  }

  lemma NothingWritten(x: seq<byte>)
    ensures Written(x, 0, [], [], [], [])
  {
  }

  lemma OneMoreToken(ts: seq<Token>, t: Token)
    requires ValidTokens(ts) && ValidToken(t, |Output(ts)|)
    ensures ValidTokens(ts + [t]) && Output(ts + [t]) == Apply(Output(ts), t)
    ensures Links(ts + [t]) == Links(ts) + TokenLink(t) && Chunks(ts + [t]) == Chunks(ts) + TokenChunk(t)
    ensures Masks(ts + [t]) == Masks(ts) + [t.Chunk?]
  {
    hide CopyBack, TokenLink, TokenChunk;
    assert (ts + [t])[..|ts|] == ts;
  }

  lemma OneMoreChoice(x: seq<byte>, ts: seq<Token>, t: Token)
    requires ValidTokens(ts) && ValidTokens(ts + [t]) && Greedy(x, ts) && |Output(ts)| < |x|
    requires var len := LinkLength(x, |Output(ts)|);
             if len >= 3 then t.Link? && t.len == len else t == Chunk(x[|Output(ts)|])
    ensures Greedy(x, ts + [t])
  {
    hide LinkLength, ValidTokens, Output;
    assert (ts + [t])[..|ts|] == ts;
  }

  lemma AppendToken(x: seq<byte>, pos: nat, ts: seq<Token>, bits: seq<bool>, links: seq<byte>, chunks: seq<byte>,
                    t: Token)
    requires Written(x, pos, ts, bits, links, chunks) && pos < |x|
    requires ValidToken(t, pos)
    requires if LinkLength(x, pos) >= 3
             then t.Link? && t.len == LinkLength(x, pos) && t.len <= Common(x, pos - t.off, pos)
             else t == Chunk(x[pos])
    ensures var pos' := pos + if t.Link? then t.len else 1;
            Written(x, pos', ts + [t], bits + [t.Chunk?], links + TokenLink(t), chunks + TokenChunk(t))
  {
    hide LinkLength, Common, CopyBack, TokenLink, TokenChunk, ValidTokens, Output, Greedy, Links, Chunks, Masks;
    OneMoreToken(ts, t);
    OneMoreChoice(x, ts, t);
    if t.Link? {
      CommonAgrees(x, pos - t.off, pos, t.len);
      CopyBackReproduces(x, pos, t.off, t.len);
    } else {
      assert x[..pos] + [x[pos]] == x[..pos + 1];
    }
  }

  /** Compresses to a file that decodes to the input whenever its size fits the 32-bit
      header, never grows by more than the header and one mask bit a byte, and makes the
      greedy choice throughout. */
  method Compress(input: seq<byte>) returns (result: seq<byte>, ghost ts: seq<Token>)
    ensures |input| < 0x1_0000_0000 && |result| < 0x1_0000_0000 ==> Decode(result) == Ok(input)
    ensures |result| <= 16 + |input| + (|input| + 7) / 8
    ensures ValidTokens(ts) && Output(ts) == input && Greedy(input, ts)
  {
    hide Written, Decode, ValidTokens, Output, Greedy, Links, Chunks, Common, LinkLength, Be16, Be32;
    var pos := 0;
    var masks := new MaskVectorWriter();
    var links: seq<byte>, chunks: seq<byte> := [], [];
    ts := [];
    NothingWritten(input);
    while pos < |input|
      invariant masks.Valid() && fresh(masks)
      invariant Written(input, pos, ts, masks.bits, links, chunks)
      decreases |input| - pos
    {
      var count, off := FindLink(input, pos);
      LinkLengthBounds(input, pos);
      WrittenBounds(input, pos, ts, masks.bits, links, chunks);
      if count >= 3 {
        AppendToken(input, pos, ts, masks.bits, links, chunks, Link(off, count));
        ts := ts + [Link(off, count)];
        var header := 0;
        if count >= 18 {
          chunks := chunks + [count - 18];
        } else {
          header := count - 2;
          assert chunks + [] == chunks;
        }
        links := links + Be16(header * 0x1000 + (off - 1));
        masks.PushBack(false);
        pos := pos + count;
      } else {
        AppendToken(input, pos, ts, masks.bits, links, chunks, Chunk(input[pos]));
        ts := ts + [Chunk(input[pos])];
        assert links + [] == links;
        chunks := chunks + [input[pos]];
        masks.PushBack(true);
        pos := pos + 1;
      }
    }
    result := MAGIC;
    result := result + Be32(|input|);
    result := result + Be32(16 + |masks.data|);
    result := result + Be32(16 + |masks.data| + |links|);
    result := result + masks.data;
    result := result + links;
    result := result + chunks;
    WrittenDecodes(input, pos, ts, masks.data, masks.bits, links, chunks, result);
  }

  lemma LinkLengthBounds(x: seq<byte>, pos: nat)
    requires pos < |x|
    ensures LinkLength(x, pos) <= MAX_LINK_LEN
  {
  }

  lemma WrittenBounds(x: seq<byte>, pos: nat, ts: seq<Token>, bits: seq<bool>, links: seq<byte>, chunks: seq<byte>)
    requires Written(x, pos, ts, bits, links, chunks)
    ensures pos <= |x|
  {
  }

  lemma WrittenDecodes(x: seq<byte>, pos: nat, ts: seq<Token>, masks: seq<byte>, bits: seq<bool>, links: seq<byte>,
                       chunks: seq<byte>,
                       result: seq<byte>)
    requires Written(x, pos, ts, bits, links, chunks) && pos >= |x| && Packs(masks, bits)
    requires result == File(|x|, masks, links, chunks)
    ensures |x| < 0x1_0000_0000 && |result| < 0x1_0000_0000 ==> Decode(result) == Ok(x)
    ensures |result| <= 16 + |x| + (|x| + 7) / 8
    ensures ValidTokens(ts) && Output(ts) == x && Greedy(x, ts)
  {
    hide Decode, File, Links, Chunks, Output, ValidTokens, Greedy, Packs;
    assert x[..pos] == x;
    if |x| < 0x1_0000_0000 && |result| < 0x1_0000_0000 {
      FileDecodes(ts, masks);
    }
    FileGrowth(ts, masks);
  }

  /** Decompresses any file, valid or not, as the format says. */
  method Decompress(input: seq<byte>) returns (result: Result)
    ensures result == Decode(input)
  {
    if |input| < 4 || input[..4] != MAGIC || |input| < 16 {
      return Invalid;
    }
    hide Decode, DecodeTokens, BitAt, ReadBe16, ReadBe32, CopyBack, Advance, IsLong, LinkOffset, LinkCount;
    HeaderDecodes(input);
    var size, link, chunk := ReadBe32(input, 4), ReadBe32(input, 8), ReadBe32(input, 12);
    var masks := new MaskVectorReader(input, 16);
    var out: seq<byte> := [];
    while |out| < size
      invariant masks.Valid() && fresh(masks) && masks.input == input && masks.start == 16
      invariant DecodeTokens(input, size, masks.taken, link, chunk, out) == Decode(input)
      decreases size - |out|
    {
      NextDecoded(input, size, masks.taken, link, chunk, out);
      var ok, isChunk := masks.PopFront();
      if !ok {
        return Invalid;
      }
      if isChunk {
        if !Has(input, chunk, 1) {
          return Invalid;
        }
        out := out + [input[chunk]];
        chunk := Advance(chunk, 1);
      } else {
        ok, link, chunk, out := ReadLink(input, link, chunk, out);
        if !ok {
          return Invalid;
        }
      }
    }
    AllRead(input, size, masks.taken, link, chunk, out);
    result := Ok(out);
  }

  /** One token of the functional decoder. */
  lemma NextDecoded(input: seq<byte>, size: nat, i: nat, link: nat, chunk: nat, out: seq<byte>)
    requires |out| < size
    ensures DecodeTokens(input, size, i, link, chunk, out) ==
            if 16 + i / 8 >= |input| then Invalid
            else if BitAt(input[16..], i) then
              if !Has(input, chunk, 1) then Invalid
              else DecodeTokens(input, size, i + 1, link, Advance(chunk, 1), out + [input[chunk]])
            else if !Has(input, link, 2) then Invalid
            else
              var v := ReadBe16(input, link);
              if IsLong(v) && !Has(input, chunk, 1) then Invalid
              else if LinkOffset(v) > |out| then Invalid
              else
                DecodeTokens(input, size, i + 1, Advance(link, 2), if IsLong(v) then Advance(chunk, 1) else chunk,
                             CopyBack(out, LinkOffset(v), LinkCount(input, chunk, v)))
  {
    hide CopyBack, BitAt, ReadBe16, Advance, IsLong, LinkOffset, LinkCount;
  }

  lemma AllRead(input: seq<byte>, size: nat, i: nat, link: nat, chunk: nat, out: seq<byte>)
    ensures |out| >= size ==> DecodeTokens(input, size, i, link, chunk, out) == Ok(out)
  {
  }

  lemma HeaderDecodes(input: seq<byte>)
    requires |input| >= 16 && input[..4] == MAGIC
    ensures Decode(input) == DecodeTokens(input, ReadBe32(input, 4), 0, ReadBe32(input, 8), ReadBe32(input, 12), [])
  {
  }

  /** Reads a link, and its count if that is among the chunks, and replays it. */
  method ReadLink(input: seq<byte>, link0: nat, chunk0: nat, out0: seq<byte>)
    returns (ok: bool, link: nat, chunk: nat, out: seq<byte>)
    ensures var v := if Has(input, link0, 2) then ReadBe16(input, link0) else 0;
            && (ok <==> Has(input, link0, 2) && (IsLong(v) ==> Has(input, chunk0, 1)) && LinkOffset(v) <= |out0|)
            && (ok ==> link == Advance(link0, 2) && chunk == if IsLong(v) then Advance(chunk0, 1) else chunk0)
            && (ok ==> out == CopyBack(out0, LinkOffset(v), LinkCount(input, chunk0, v)) && |out| > |out0|)
  {
    hide CopyBack, ReadBe16, Advance;
    ok, link, chunk, out := false, link0, chunk0, out0;
    if !Has(input, link, 2) {
      return;
    }
    var v := ReadBe16(input, link);
    link := Advance(link, 2);
    var count := v / 0x1000 + 2;
    if count == 2 {
      if !Has(input, chunk, 1) {
        return;
      }
      count := input[chunk] as nat + 18;
      chunk := Advance(chunk, 1);
    }
    var off := v % 0x1000 + 1;
    if off > |out| {
      return;
    }
    out := Replay(out, off, count);
    ok := true;
  }

  method Replay(out0: seq<byte>, off: nat, count: nat) returns (out: seq<byte>)
    requires 1 <= off <= |out0|
    ensures out == CopyBack(out0, off, count)
  {
    out := out0;
    for i := 0 to count
      invariant out == CopyBack(out0, off, i)
    {
      out := out + [out[|out| - off]];
    }
  }

  /** Compressing and decompressing is the identity on every input whose own size and whose
      file fit the 32-bit header. */
  method RoundTrip(input: seq<byte>) returns (packed: seq<byte>, result: Result)
    requires |input| < 0x1_0000_0000
    ensures |packed| < 0x1_0000_0000 ==> result == Ok(input)
  {
    hide Decode;
    ghost var ts;
    packed, ts := Compress(input);
    result := Decompress(packed);
  }
}
