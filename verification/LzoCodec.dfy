/** The law the codec is for: what is compressed decompresses to itself. */
module LzoCodec {
  import opened Bytes
  import opened LzoFormat
  import LzoCompress
  import LzoDecompress

  /** Whatever the dictionary holds and whatever lies behind the compressed bytes in memory,
      both decompressors return the input of the compressor. */
  method RoundTrip(input: seq<byte>, dict: array<int>, behind: seq<byte>)
    returns (safe: array<byte>, unchecked: array<byte>)
    requires dict.Length == LzoCompress.D_SIZE && |behind| >= SLACK
    modifies dict
    ensures safe[..] == input && unchecked[..] == input
  {
    hide Decode, LzoCompress.Hash.Valid;
    var packed := new byte[LzoCompress.WorstCase(|input|)];
    LzoCompress.HashIsValid();
    var n := LzoCompress.Compress(input, packed, dict, LzoCompress.LZO_HASH);
    var s := Stream(packed[..n] + behind, n, |input|);
    assert s.bytes[..s.len] == packed[..n];

    safe, unchecked := new byte[|input|], new byte[|input|];
    var status, op := LzoDecompress.Decompress(s, true, safe);
    assert status == Ok && safe[..] == safe[..op];
    status, op := LzoDecompress.Decompress(s, false, unchecked);
    assert status == Ok && unchecked[..] == unchecked[..op];
  }
}
