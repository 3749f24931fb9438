/** The Yay0 container of gc-font-tool.cpp: a stream of mask bits, one per token, and two
    streams of bytes that the tokens draw from. */
module Yay0Format {
  import opened Bytes
  import opened Powers

  const MAX_LINK_LEN: nat := 255 + 18
  const MAX_OFFSET: nat := 0x1000

  // Bits, most significant first

  /** Bit `i` of a byte sequence, counting from the top bit of the first byte. */
  predicate BitAt(data: seq<byte>, i: nat)
    requires i / 8 < |data|
  {
    Bit(data[i / 8], 7 - i % 8)
  }

  /** `data` is exactly `bits`, padded with zeros to whole bytes. */
  ghost predicate Packs(data: seq<byte>, bits: seq<bool>) {
    && |data| == (|bits| + 7) / 8
    && (forall i :: 0 <= i < |bits| ==> BitAt(data, i) == bits[i])
    && (forall i :: |bits| <= i < 8 * |data| ==> !BitAt(data, i))
  }

  // Tokens

  datatype Token = Chunk(value: byte) | Link(off: nat, len: nat)

  predicate ValidToken(t: Token, room: nat) {
    t.Link? ==> 1 <= t.off <= MAX_OFFSET && t.off <= room && 3 <= t.len <= MAX_LINK_LEN
  }

  ghost predicate ValidTokens(ts: seq<Token>)
    decreases |ts|, 0
  {
    ts == [] || (ValidTokens(ts[..|ts| - 1]) && ValidToken(ts[|ts| - 1], |Output(ts[..|ts| - 1])|))
  }

  /** What the tokens stand for. */
  ghost function Output(ts: seq<Token>): (out: seq<byte>)
    requires ValidTokens(ts)
    ensures |out| >= |ts|
    decreases |ts|, 1
  {
    if ts == [] then []
    else
      var before := Output(ts[..|ts| - 1]);
      match ts[|ts| - 1]
      case Chunk(v) => before + [v]
      case Link(off, len) => CopyBack(before, off, len)
  }

  // The three streams

  function Be16(v: nat): (s: seq<byte>)
    ensures |s| == 2
  {
    [v / 0x100 % 0x100, v % 0x100]
  }

  function Be32(v: nat): (s: seq<byte>)
    ensures |s| == 4
  {
    Be16(v / 0x1_0000 % 0x1_0000) + Be16(v % 0x1_0000)
  }

  function TokenLink(t: Token): (s: seq<byte>)
    requires t.Link? ==> 1 <= t.off <= MAX_OFFSET && 3 <= t.len <= MAX_LINK_LEN
  {
    match t
    case Chunk(_) => []
    case Link(off, len) => Be16((if len >= 18 then 0 else len - 2) * 0x1000 + (off - 1))
  }

  function TokenChunk(t: Token): (s: seq<byte>)
    requires t.Link? ==> 1 <= t.off <= MAX_OFFSET && 3 <= t.len <= MAX_LINK_LEN
  {
    match t
    case Chunk(v) => [v]
    case Link(off, len) => if len >= 18 then [len - 18] else []
  }

  ghost function Masks(ts: seq<Token>): seq<bool> {
    seq(|ts|, i requires 0 <= i < |ts| => ts[i].Chunk?)
  }

  ghost function Links(ts: seq<Token>): seq<byte>
    requires ValidTokens(ts)
  {
    if ts == [] then [] else Links(ts[..|ts| - 1]) + TokenLink(ts[|ts| - 1])
  }

  ghost function Chunks(ts: seq<Token>): seq<byte>
    requires ValidTokens(ts)
  {
    if ts == [] then [] else Chunks(ts[..|ts| - 1]) + TokenChunk(ts[|ts| - 1])
  }

  const MAGIC: seq<byte> := [0x59, 0x61, 0x79, 0x30]

  function File(size: nat, masks: seq<byte>, links: seq<byte>, chunks: seq<byte>): seq<byte> {
    MAGIC + Be32(size) + Be32(16 + |masks|) + Be32(16 + |masks| + |links|) + masks + links + chunks
  }

  // Decoding

  datatype Result = Ok(data: seq<byte>) | Invalid

  predicate Has(input: seq<byte>, offset: nat, n: nat) {
    offset + n <= |input|
  }

  function ReadBe16(input: seq<byte>, offset: nat): (v: nat)
    requires Has(input, offset, 2)
    ensures v < 0x1_0000
  {
    var high: nat, low: nat := input[offset], input[offset + 1];
    high * 0x100 + low
  }

  function ReadBe32(input: seq<byte>, offset: nat): (v: nat)
    requires Has(input, offset, 4)
    ensures v < 0x1_0000_0000
  {
    ReadBe16(input, offset) * 0x1_0000 + ReadBe16(input, offset + 2)
  }

  /** The stream cursors are 32 bits wide. */
  function Advance(cursor: nat, n: nat): nat {
    (cursor + n) % 0x1_0000_0000
  }

  /** What a file decodes to: header, then tokens until the announced size is reached. */
  function Decode(input: seq<byte>): Result {
    if !Has(input, 0, 4) || input[..4] != MAGIC || !Has(input, 0, 16) then Invalid
    else DecodeTokens(input, ReadBe32(input, 4), 0, ReadBe32(input, 8), ReadBe32(input, 12), [])
  }

  function DecodeTokens(input: seq<byte>, size: nat, i: nat, link: nat, chunk: nat, out: seq<byte>): Result
    decreases size - |out|
  {
    if |out| >= size then Ok(out)
    else if 16 + i / 8 >= |input| then Invalid
    else if BitAt(input[16..], i) then
      if !Has(input, chunk, 1) then Invalid
      else DecodeTokens(input, size, i + 1, link, Advance(chunk, 1), out + [input[chunk]])
    else if !Has(input, link, 2) then Invalid
    else
      var v := ReadBe16(input, link);
      if IsLong(v) && !Has(input, chunk, 1) then Invalid
      else if LinkOffset(v) > |out| then Invalid
      else
        DecodeTokens(input, size, i + 1, Advance(link, 2), if IsLong(v) then Advance(chunk, 1) else chunk,
                     CopyBack(out, LinkOffset(v), LinkCount(input, chunk, v)))
  }

  /** The count of a long link is in the chunk stream. */
  predicate IsLong(v: nat) {
    v / 0x1000 == 0
  }

  function LinkOffset(v: nat): (off: nat)
    ensures 1 <= off <= MAX_OFFSET
  {
    v % 0x1000 + 1
  }

  function LinkCount(input: seq<byte>, chunk: nat, v: nat): (n: nat)
    requires IsLong(v) ==> Has(input, chunk, 1)
    ensures n >= 3
  {
    if IsLong(v) then input[chunk] as nat + 18 else v / 0x1000 + 2
  }

  /** Some bytes of the format: a short link and the longest one; and a file of six equal bytes. */
  lemma SomeBytes()
    ensures TokenLink(Link(1, 5)) == [0x30, 0] && TokenChunk(Link(1, 5)) == []
    ensures TokenLink(Link(0x1000, 273)) == [0x0f, 0xff] && TokenChunk(Link(0x1000, 273)) == [255]
  {
  }

  lemma SomeFile()
    ensures File(6, [0x80], [0x30, 0], [97])
            == [0x59, 0x61, 0x79, 0x30, 0, 0, 0, 6, 0, 0, 0, 17, 0, 0, 0, 19, 0x80, 0x30, 0, 97]
  {
    assert Be32(6) == [0, 0, 0, 6] && Be32(17) == [0, 0, 0, 17] && Be32(19) == [0, 0, 0, 19];
    hide Be32;
  }

  /** A file without a whole header, or that begins otherwise, is refused. */
  lemma Refused(input: seq<byte>)
    requires |input| < 16 || input[..4] != [0x59, 0x61, 0x79, 0x30]
    ensures Decode(input) == Invalid
  {
  }
}
