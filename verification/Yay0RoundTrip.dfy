/** A file built from tokens decodes to what the tokens stand for, and is not much longer. */
module Yay0RoundTrip {
  import opened Basics
  import opened Bytes
  import opened Powers
  import opened Yay0Format

  // Prefixes of a token list

  lemma {:induction false} PrefixOfTokens(ts: seq<Token>, k: nat)
    requires ValidTokens(ts) && k <= |ts|
    ensures ValidTokens(ts[..k])
    ensures Links(ts[..k]) <= Links(ts) && Chunks(ts[..k]) <= Chunks(ts) && Output(ts[..k]) <= Output(ts)
    ensures |Output(ts)| - |Output(ts[..k])| >= |ts| - k
    decreases |ts|
  {
    hide CopyBack, TokenLink, TokenChunk;
    if k < |ts| {
      PrefixOfTokens(ts[..|ts| - 1], k);
      assert ts[..|ts| - 1][..k] == ts[..k];
    } else {
      assert ts[..k] == ts;
    }
  }

  function Apply(out: seq<byte>, t: Token): seq<byte>
    requires ValidToken(t, |out|)
  {
    match t
    case Chunk(v) => out + [v]
    case Link(off, len) => CopyBack(out, off, len)
  }

  lemma NextToken(ts: seq<Token>, k: nat)
    requires ValidTokens(ts) && k < |ts|
    ensures ValidTokens(ts[..k]) && ValidTokens(ts[..k + 1]) && ValidToken(ts[k], |Output(ts[..k])|)
    ensures Links(ts[..k + 1]) == Links(ts[..k]) + TokenLink(ts[k]) <= Links(ts)
    ensures Chunks(ts[..k + 1]) == Chunks(ts[..k]) + TokenChunk(ts[k]) <= Chunks(ts)
    ensures Output(ts[..k + 1]) == Apply(Output(ts[..k]), ts[k]) <= Output(ts)
    ensures |Output(ts[..k])| < |Output(ts)|
  {
    hide CopyBack, TokenLink, TokenChunk;
    PrefixOfTokens(ts, k);
    PrefixOfTokens(ts, k + 1);
    var q := ts[..k + 1];
    assert q[..k] == ts[..k] && q[k] == ts[k];
  }

  // Reading back what was written

  lemma ReadBe16Back(input: seq<byte>, at: nat, v: nat)
    requires v < 0x1_0000 && Holds(input, at, Be16(v))
    ensures ReadBe16(input, at) == v
  {
    HoldsAt(input, at, Be16(v), 0);
    HoldsAt(input, at, Be16(v), 1);
  }

  lemma ReadBe32Back(input: seq<byte>, at: nat, v: nat)
    requires v < 0x1_0000_0000 && Holds(input, at, Be32(v))
    ensures ReadBe32(input, at) == v
  {
    hide Be16;
    HoldsParts(input, at, Be16(v / 0x1_0000 % 0x1_0000), Be16(v % 0x1_0000));
    ReadBe16Back(input, at, v / 0x1_0000 % 0x1_0000);
    ReadBe16Back(input, at + 2, v % 0x1_0000);
  }

  /** The parts of a file, where its header says they are. */
  ghost predicate Parts(file: seq<byte>, size: nat, masks: seq<byte>, links: seq<byte>, chunks: seq<byte>) {
    && |file| == 16 + |masks| + |links| + |chunks|
    && file[..4] == MAGIC
    && ReadBe32(file, 4) == size
    && ReadBe32(file, 8) == 16 + |masks|
    && ReadBe32(file, 12) == 16 + |masks| + |links|
    && Holds(file, 16, masks)
    && Holds(file, 16 + |masks|, links)
    && Holds(file, 16 + |masks| + |links|, chunks)
  }

  lemma FileHasParts(size: nat, masks: seq<byte>, links: seq<byte>, chunks: seq<byte>)
    requires size < 0x1_0000_0000 && |File(size, masks, links, chunks)| < 0x1_0000_0000
    ensures Parts(File(size, masks, links, chunks), size, masks, links, chunks)
  {
    hide Be32;
    var f := File(size, masks, links, chunks);
    var o1, o2 := 16 + |masks|, 16 + |masks| + |links|;
    assert Holds(f, 4, Be32(size));
    assert Holds(f, 8, Be32(o1));
    assert Holds(f, 12, Be32(o2));
    ReadBe32Back(f, 4, size);
    ReadBe32Back(f, 8, o1);
    ReadBe32Back(f, 12, o2);
  }

  lemma AdvanceSmall(cursor: nat, n: nat)
    requires cursor + n < 0x1_0000_0000
    ensures Advance(cursor, n) == cursor + n
  {
  }

  lemma LinkWord(off: nat, len: nat)
    requires 1 <= off <= MAX_OFFSET && 3 <= len <= MAX_LINK_LEN
    ensures var v := (if len >= 18 then 0 else len - 2) * 0x1000 + (off - 1);
            && v < 0x1_0000 && LinkOffset(v) == off && IsLong(v) == (len >= 18)
            && (len < 18 ==> v / 0x1000 + 2 == len)
  {
  }

  lemma ChunkStep(f: seq<byte>, size: nat, i: nat, link: nat, chunk: nat, out: seq<byte>, v: byte)
    requires |f| < 0x1_0000_0000 && |out| < size
    requires 16 + i / 8 < |f| && BitAt(f[16..], i) && Holds(f, chunk, [v])
    ensures DecodeTokens(f, size, i, link, chunk, out) == DecodeTokens(f, size, i + 1, link, chunk + 1, out + [v])
  {
    hide BitAt, Advance, ReadBe16, IsLong, LinkOffset, LinkCount;
    HoldsAt(f, chunk, [v], 0);
    AdvanceSmall(chunk, 1);
  }

  lemma LinkStep(f: seq<byte>, size: nat, i: nat, link: nat, chunk: nat, out: seq<byte>, off: nat, len: nat)
    requires |f| < 0x1_0000_0000 && |out| < size && ValidToken(Link(off, len), |out|)
    requires 16 + i / 8 < |f| && !BitAt(f[16..], i)
    requires Holds(f, link, TokenLink(Link(off, len))) && Holds(f, chunk, TokenChunk(Link(off, len)))
    ensures DecodeTokens(f, size, i, link, chunk, out)
         == DecodeTokens(f, size, i + 1, link + 2, chunk + if len >= 18 then 1 else 0, CopyBack(out, off, len))
  {
    hide BitAt, Advance, ReadBe16, IsLong, LinkOffset, CopyBack, Be16;
    var v := (if len >= 18 then 0 else len - 2) * 0x1000 + (off - 1);
    LinkWord(off, len);
    ReadBe16Back(f, link, v);
    AdvanceSmall(link, 2);
    if len >= 18 {
      HoldsAt(f, chunk, [len - 18], 0);
      AdvanceSmall(chunk, 1);
    }
    assert LinkCount(f, chunk, v) == len;
  }

  lemma TokenStep(f: seq<byte>, size: nat, i: nat, link: nat, chunk: nat, out: seq<byte>, t: Token)
    requires |f| < 0x1_0000_0000 && |out| < size && ValidToken(t, |out|)
    requires 16 + i / 8 < |f| && BitAt(f[16..], i) == t.Chunk?
    requires Holds(f, link, TokenLink(t)) && Holds(f, chunk, TokenChunk(t))
    ensures DecodeTokens(f, size, i, link, chunk, out)
         == DecodeTokens(f, size, i + 1, link + |TokenLink(t)|, chunk + |TokenChunk(t)|, Apply(out, t))
  {
    hide BitAt, DecodeTokens, CopyBack;
    match t
    case Chunk(v) => ChunkStep(f, size, i, link, chunk, out, v);
    case Link(off, len) => LinkStep(f, size, i, link, chunk, out, off, len);
  }

  lemma MaskHolds(f: seq<byte>, ts: seq<Token>, masks: seq<byte>, k: nat)
    requires Packs(masks, Masks(ts)) && k < |ts| && Holds(f, 16, masks)
    ensures 16 + k / 8 < |f| && BitAt(f[16..], k) == ts[k].Chunk?
  {
    hide Bit;
    HoldsAt(f, 16, masks, k / 8);
    assert BitAt(masks, k) == Masks(ts)[k];
  }

  /** The three streams stay in step: after `k` tokens the cursors stand behind what the
      first `k` tokens wrote. */
  lemma {:induction false} DecodeFrom(f: seq<byte>, ts: seq<Token>, masks: seq<byte>, k: nat)
    requires ValidTokens(ts) && Packs(masks, Masks(ts)) && k <= |ts|
    requires |f| < 0x1_0000_0000 && Parts(f, |Output(ts)|, masks, Links(ts), Chunks(ts))
    ensures ValidTokens(ts[..k])
    ensures DecodeTokens(f, |Output(ts)|, k, 16 + |masks| + |Links(ts[..k])|,
                         16 + |masks| + |Links(ts)| + |Chunks(ts[..k])|, Output(ts[..k])) == Ok(Output(ts))
    decreases |ts| - k
  {
    hide CopyBack, TokenLink, TokenChunk, DecodeTokens, BitAt, Bit, Packs, Masks, Holds, Output, ValidTokens, Links,
         Chunks;
    PrefixOfTokens(ts, k);
    if k == |ts| {
      assert ts[..k] == ts;
      AllDecoded(f, k, 16 + |masks| + |Links(ts[..k])|, 16 + |masks| + |Links(ts)| + |Chunks(ts[..k])|, Output(ts));
    } else {
      NextToken(ts, k);
      DecodeFrom(f, ts, masks, k + 1);
      var link, chunk := 16 + |masks| + |Links(ts[..k])|, 16 + |masks| + |Links(ts)| + |Chunks(ts[..k])|;
      StreamHolds(f, 16 + |masks|, Links(ts), Links(ts[..k]), TokenLink(ts[k]));
      StreamHolds(f, 16 + |masks| + |Links(ts)|, Chunks(ts), Chunks(ts[..k]), TokenChunk(ts[k]));
      MaskHolds(f, ts, masks, k);
      TokenStep(f, |Output(ts)|, k, link, chunk, Output(ts[..k]), ts[k]);
    }
  }

  lemma AllDecoded(f: seq<byte>, i: nat, link: nat, chunk: nat, out: seq<byte>)
    ensures DecodeTokens(f, |out|, i, link, chunk, out) == Ok(out)
  {
  }

  lemma StreamHolds(f: seq<byte>, at: nat, stream: seq<byte>, before: seq<byte>, x: seq<byte>)
    requires Holds(f, at, stream) && before + x <= stream
    ensures Holds(f, at + |before|, x)
  {
    var rest := stream[|before + x|..];
    assert stream == before + (x + rest);
    HoldsParts(f, at, before, x + rest);
    HoldsParts(f, at + |before|, x, rest);
  }

  lemma FileDecodes(ts: seq<Token>, masks: seq<byte>)
    requires ValidTokens(ts) && Packs(masks, Masks(ts))
    requires |File(|Output(ts)|, masks, Links(ts), Chunks(ts))| < 0x1_0000_0000 && |Output(ts)| < 0x1_0000_0000
    ensures Decode(File(|Output(ts)|, masks, Links(ts), Chunks(ts))) == Ok(Output(ts))
  {
    hide DecodeTokens, File, Packs, Masks, Output, Links, Chunks, ValidTokens, ReadBe32;
    var f := File(|Output(ts)|, masks, Links(ts), Chunks(ts));
    FileHasParts(|Output(ts)|, masks, Links(ts), Chunks(ts));
    DecodeFrom(f, ts, masks, 0);
    assert ts[..0] == [];
    NothingYet();
  }

  lemma NothingYet()
    ensures Links([]) == [] && Chunks([]) == [] && Output([]) == []
  {
  }

  // Growth

  lemma {:induction false} StreamsNoLonger(ts: seq<Token>)
    requires ValidTokens(ts)
    ensures |Links(ts)| + |Chunks(ts)| <= |Output(ts)|
    decreases |ts|
  {
    if ts != [] {
      StreamsNoLonger(ts[..|ts| - 1]);
    }
  }

  /** At most one mask bit a byte, and the streams never outgrow the data. */
  lemma FileGrowth(ts: seq<Token>, masks: seq<byte>)
    requires ValidTokens(ts) && Packs(masks, Masks(ts))
    ensures var n := |Output(ts)|;
            |File(n, masks, Links(ts), Chunks(ts))| <= 16 + n + (n + 7) / 8
  {
    hide Output, Links, Chunks, ValidTokens, BitAt;
    StreamsNoLonger(ts);
    PrefixOfTokens(ts, 0);
    assert |ts| <= |Output(ts)|;
  }
}
