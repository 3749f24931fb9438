# Proofs about the codecs, tables, lists and graph search of this repository

This project models the algorithms of six vendored libraries and tools and proves what each of
them is for. `dafny verify dfyconfig.toml` checks the whole project.

- **Include cycles** (`Graphs`, `SearchInvariant`, `IncludeCycles`). The recursive search for
  strongly connected components in `Tools/find-includes-cycles.py`, with its shared stack, index
  and result. For every finite graph it reports each component once, in an order in which
  everything a component can reach comes before it. What the script prints is then exactly
  the files on a cycle of two or more; its documentation promises all cycles, and a file that
  includes itself is one it never prints.
- **LZO1X** (`Bytes`, `LzoFormat`, `LzoRoundTrip`, `LzoCompress`, `LzoDecompress`, `LzoCodec`).
  The compressor with its hash dictionary, back-patched literal counts and four kinds of match,
  and both decompressors with their jumps between labels. Streams are described by programs
  of instructions; what the compressor emits is the bytes of a program whose output is the input,
  for any hash, any starting dictionary and any bytes behind the stream. The checked and the
  unchecked decompressor are proved against one functional decoder.
- **Adler-32** (`Adler32`). The deferred modulo never overflows 32 bits and is exact.
- **Yay0** (`Yay0Format`, `Yay0RoundTrip`, `Yay0Codec`). The three interleaved streams, the mask
  bit vectors, the greedy matcher and the decoder of `Docs/gc-font-tool.cpp`.
- **Font tiles** (`Swizzle`, `Dither`). The 2-bit block layout and the in-place dithering.
  Dithering is proved equal to a definition in which each pixel collects from the pixels before it.
- **Inflate** (`Powers`, `Huffman`, `HuffmanTable`, `InflateFormat`, `InflateBits`, `Inflate`,
  `BitReversal`, `PrefixCodes`, `DeflateStream`, `DeflateRoundTrip`). Canonical Huffman codes, the
  table builder with its 9-bit fast table, the bit reservoir and all three block types of
  `stb_image`'s zlib decoder, against a decoder over bit positions written from RFC 1950 and
  RFC 1951. Behind its end the input goes on with zero bits, as the program has it, so streams
  that are cut short have a meaning too. And whatever blocks a stream is written from, stored,
  fixed or dynamic, under any codes and with any run-length coding of their lengths, the program
  returns what they stand for. What a stream is, its codes, its lengths and distances and the runs
  of its code lengths, is said by `DeflateStream` in closed form, apart from the decoder.
- **PNG** (`PngFilters`, `PngUnfilter`, `PngEncoding`, `Adam7`, `PixelMemory`, `PngInterlace`,
  `PngInterlaceRoundTrip`). In-place unfiltering inverts filtering (section 6 of RFC 2083, stated
  sample by sample in `PngEncoding`), the seven passes cover the image exactly once, and
  de-interlacing inverts interlacing (section 2.6). With an alpha channel added the program steps
  over the passes by the wrong amount; the project says exactly which images still load.
- **TGA and BMP** (`Scanlines`, `PixelConvert`, `ImageReader`, `ImageWriter`, `TgaFormat`,
  `TgaLoader`, `TgaRoundTrip`, `TgaEncoding`, `Channels`, `BmpFormat`, `BmpLoader`, `BmpRoundTrip`,
  `BmpEncoding`). What the writers write the loaders read back, upside-down rows, row padding and
  the in-place flip included. And pictures that no writer here makes, grey, with a colour map or in
  packets, of 4, 8, 16, 24 and 32 bits, load as their colours from files laid out by `TgaEncoding`
  and `BmpEncoding`.
- **ENet** (`Rings`, `EnetList`, `Remainders`, `WordReversal`, `Crc32`, `CrcResidue`). The intrusive
  circular list on the heap, and the table-driven CRC-32 against bit-at-a-time polynomial division,
  with the residue and the check value by which CRC-32 is known.

`Basics` holds the notions that several of these share.

Three promises turned out false of the code and are stated with their exact conditions:
`IncludeCycles.OnCycleIffPrintedOrSelfInclude` (self-includes are missed),
`PngInterlaceRoundTrip.DeinterlaceWithAlpha` (interlaced images with alpha added, with an image
of two pixels in `PngInterlaceRoundTrip.TwoPixels`) and `Channels.FullIff` (a full channel of a
BMP pixel is 255 only when it has as many bits as red, with a six-bit green in
`Channels.SixBitGreen`). The images that the TGA and BMP loaders return are those below 2 to the
31st bytes; `BmpRoundTrip.RoundTrip` and `TgaRoundTrip.RoundTrip` say so.

Two more things the BMP reader does are modelled as they are, although they are not what the
format means. Masks behind the header are not counted when it skips to the pixels, so that those
are looked for twelve bytes too late, and a palette behind the oldest header is read four colours
short. `BmpEncoding.MaskedFileLoads` and `BmpEncoding.OldFileLoads` say how such files load.

## Model

| member | source | states |
|---|---|---|
| IncludeCycles.Finder.StrongConnect | Tools/find-includes-cycles.py:38-69 | one call extends the index, stack and result so that the search invariant holds again: the node is numbered, everything it reaches is accounted for, and either its component is reported or it is connected to an older node on the stack |
| IncludeCycles.Finder.VisitSuccessors | Tools/find-includes-cycles.py:49-56 | the loop over the successors keeps the invariant and leaves the node with the low link that all of them account for |
| IncludeCycles.Finder.PopComponent | Tools/find-includes-cycles.py:60-69 | the pop loop reports exactly the part of the stack from the root on and keeps the rest |
| IncludeCycles.Finder.Run | Tools/find-includes-cycles.py:71-73 | the outer loop leaves every key visited with the stack empty |
| IncludeCycles.StronglyConnectedComponents | Tools/find-includes-cycles.py:23-75 | for every finite graph the result is exactly its strongly connected components, disjoint, covering every name mentioned, each after all it can reach |
| IncludeCycles.SearchComplete | Tools/find-includes-cycles.py:71-75 | when no node is in progress the invariant means that the components partition the nodes |
| IncludeCycles.ComponentsInOrder | Tools/find-includes-cycles.py:67-69 | no component can reach a later one |
| IncludeCycles.PrintedIffTwoFiles | Tools/find-includes-cycles.py:77-81 | a component is printed if and only if two different files in it reach each other |
| IncludeCycles.OnCycleIffPrintedOrSelfInclude | Tools/find-includes-cycles.py:3-5 | a file lies on an include cycle if and only if its component is printed or it includes itself |
| IncludeCycles.SelfIncludeIsMissed | Tools/find-includes-cycles.py:77-81 | a file whose only cycle is its own inclusion is never printed |
| SearchInvariant.PushKeepsInv | Tools/find-includes-cycles.py:40-43 | numbering and pushing a node keeps the invariant |
| SearchInvariant.BlackenKeepsInv | Tools/find-includes-cycles.py:59-60 | a finished node that is no root stays on the stack without breaking the invariant |
| SearchInvariant.PopKeepsInv | Tools/find-includes-cycles.py:60-69 | reporting the popped part keeps the invariant |
| SearchInvariant.SegmentIsComponent | Tools/find-includes-cycles.py:60-69 | when the low link of a node is its own index, the stack from it on is one strongly connected component |
| Bytes.CopyBackIsPeriodic | Externals/LZO/minilzo.c:4139-4141 | the overlapping copy at distance d is the periodic extension of the last d bytes |
| Bytes.CopyBackBlock | Externals/LZO/minilzo.c:4121-4134 | a block no longer than the distance is copied from bytes already there |
| Bytes.CopyBackReproduces | Externals/LZO/minilzo.c:3010-3145 | copying back reproduces data that agrees with itself at the distance |
| LzoRoundTrip.LengthDecodes | Externals/LZO/minilzo.c:3023-3052 | a length and its zero bytes scan back to the value and the position behind them |
| LzoFormat.SomeBytes | Externals/LZO/minilzo.c:3023-3145 | bytes of literal runs, of all four kinds of match and of the end, so that their order and bits are those of the format |
| LzoRoundTrip.MatchBytesDecode | Externals/LZO/minilzo.c:3062-3145 | the bytes of every kind of match decode to its distance, length and trailing literal count; no far match is taken for the end marker |
| LzoRoundTrip.EndStep | Externals/LZO/minilzo.c:3200-3203 | the marker 17, 0, 0 ends decoding with success |
| LzoRoundTrip.ProgramDecodes | Externals/LZO/minilzo.c:3797-4187 | the bytes of every valid program, with any bytes behind, decode to the program's output |
| LzoRoundTrip.LoneRunDecodes | Externals/LZO/minilzo.c:3179-3180 | a short input stored as one literal run with the special first byte decodes to itself |
| LzoCompress.RunHeaderGrowth | Externals/LZO/minilzo.c:3023-3052 | the header of a literal run is amortised at one byte in sixteen |
| LzoCompress.MatchSavesAByte | Externals/LZO/minilzo.c:3062-3145 | every match is coded in fewer bytes than it stands for |
| LzoCompress.PatchTail | Externals/LZO/minilzo.c:3027-3031 | writing a literal count of one to three into the byte two back turns the last match into one with trailing literals |
| LzoCompress.FindMatch | Externals/LZO/minilzo.c:2940-3018 | it finds exactly the entries that are usable and match: of the one or two places the hash leads to, the last looked up is returned if and only if it lies within the maximal offset, is near or agrees in its fourth byte, and agrees in three bytes; whatever the dictionary holds, only that place is overwritten, with the current position |
| LzoCompress.ExtendMatch | Externals/LZO/minilzo.c:3054-3100 | the match is extended as far as the bytes agree |
| LzoCompress.DoCompress | Externals/LZO/minilzo.c:2922-3157 | the emitted bytes are a valid program for the input up to the pending literals, within the growth bound |
| LzoCompress.Compress | Externals/LZO/minilzo.c:3159-3207 | for every hash and starting dictionary the output decodes to the input and is at most n + n/16 + 4 bytes, inside the n + n/16 + 67 the callers allocate |
| LzoCompress.HashIsValid | Externals/LZO/minilzo.c:2621-2671 | the hash functions of the compiled variant stay inside the dictionary |
| LzoDecompress.CopyMatchByBlocks | Externals/LZO/minilzo.c:4112-4142 | the copy in blocks of four is the byte-at-a-time overlapping copy |
| LzoDecompress.CopyRun | Externals/LZO/minilzo.c:3871-3900 | literals in blocks of four and a remainder are the literals one by one |
| LzoDecompress.CheckAndCopy | Externals/LZO/minilzo.c:4095-4150 | with the checks on, a match outside the output already written or past its room is refused with the status of the check, before anything is written |
| LzoDecompress.Decompress | Externals/LZO/minilzo.c:3797-4187 | on every stream the jump-driven decompressor returns the status and bytes of the functional decoder and writes nothing behind them; without the checks it does the same on every stream that decodes |
| LzoCodec.RoundTrip | Externals/LZO/minilzo.c:2916-4187 | compressing and decompressing, with either decompressor, returns every input |
| Adler32.SumsConcat | Externals/LZO/minilzo.c:2356-2384 | checksumming two pieces in turn is checksumming their concatenation |
| Adler32.SomeSums | Externals/LZO/minilzo.c:2340-2384 | the sums of three letters, and that they are taken modulo 65521 |
| Adler32.StepAgrees | Externals/LZO/minilzo.c:2349-2353 | a byte added without reducing agrees with one added and reduced |
| Adler32.TriangleBound | Externals/LZO/minilzo.c:2346-2347 | 5552 bytes from any start stay below 2 to the 32nd |
| Adler32.TwoPieces | Externals/LZO/minilzo.c:2356-2384 | continuing the program's checksum over a second piece gives that of the concatenation, from every starting value and for empty pieces too |
| Adler32.Compute | Externals/LZO/minilzo.c:2356-2384 | no addition overflows, and the result is the checksum of section 2.2 of RFC 1950 |
| Yay0Codec.MaskVectorWriter.PushBack | Docs/gc-font-tool.cpp:619-631 | the vector holds the bits pushed, highest bit first, padded with zeros |
| Yay0Codec.MaskVectorReader.PopFront | Docs/gc-font-tool.cpp:652-664 | bits come back in the order pushed, and reading past the input fails |
| Yay0RoundTrip.TokenStep | Docs/gc-font-tool.cpp:881-912 | decoding one token from the three streams appends what it stands for and moves every cursor past it |
| Yay0Format.SomeBytes | Docs/gc-font-tool.cpp:826-840 | bytes of the shortest kind of link and of the longest link |
| Yay0Format.SomeFile | Docs/gc-font-tool.cpp:847-857 | the bytes of the file of six equal letters |
| Yay0RoundTrip.FileDecodes | Docs/gc-font-tool.cpp:847-921 | the file of every valid token list decodes to its output |
| Yay0RoundTrip.FileGrowth | Docs/gc-font-tool.cpp:847-857 | a file is at most 16 + n + ceil(n/8) bytes |
| Yay0Codec.LongestCovers | Docs/gc-font-tool.cpp:791-823 | no offset in reach has a longer match than the reference's longest |
| Yay0Codec.FindLink | Docs/gc-font-tool.cpp:788-823 | the search with its early break and its count less one finds exactly min(273, remaining - 1, longest match) |
| Yay0Codec.Compress | Docs/gc-font-tool.cpp:776-857 | the result is the file of a valid, greedy token list whose output is the input, within the growth bound |
| Yay0Codec.Decompress | Docs/gc-font-tool.cpp:860-921 | on every input the loop returns what the functional decoder returns, errors included |
| Yay0Format.Refused | Docs/gc-font-tool.cpp:860-875 | a file without a whole header, or that begins otherwise, is refused |
| Yay0Codec.RoundTrip | Docs/gc-font-tool.cpp:776-921 | decompressing what was compressed gives back every input of which the size and the packed size fit the header |
| Swizzle.PackUnpack | Docs/gc-font-tool.cpp:1001-1011 | four unpacked pixels pack to the byte they came from |
| Swizzle.PackIs | Docs/gc-font-tool.cpp:951-1011 | the first of four pixels is in the top bits of its byte, and each level is a third of 255 |
| Swizzle.SpotsApart | Docs/gc-font-tool.cpp:939-949 | no two block rows share a pixel or a byte |
| Swizzle.SpotsAre | Docs/gc-font-tool.cpp:939-949 | a row of a block is eight pixels of a row of the image and two of the bytes that the blocks have one after the other |
| Swizzle.I2Encode | Docs/gc-font-tool.cpp:924-967 | every block row of the result is the packed block row of the image |
| Swizzle.I2Decode | Docs/gc-font-tool.cpp:970-1015 | every block row of the result is the unpacked block row of the image |
| Swizzle.Reencode | Docs/gc-font-tool.cpp:924-1015 | encoding a decoded image of whole blocks gives back the image |
| Swizzle.Requantise | Docs/gc-font-tool.cpp:924-1015 | decoding an encoded image keeps every pixel in its place at its 2-bit value |
| Dither.StepGives | Docs/gc-font-tool.cpp:1037-1053 | pushing a pixel's error forwards gives every later pixel the share that the pull definition collects |
| Dither.WeightsAre | Docs/gc-font-tool.cpp:1041-1053 | of the error, 7 parts go to the right, 3 below to the left, 5 below and 1 below to the right, as far as those are in the image |
| Dither.StepDims | Docs/gc-font-tool.cpp:1041-1053 | a step never makes the image brighter |
| Dither.Image8.Dither4Colour | Docs/gc-font-tool.cpp:1029-1056 | the image becomes the one of the pull definition, every pixel on one of four levels, and no brighter in all |
| BitReversal.MasksCollect | Externals/SOIL/stb_image_aug.c:1626-1633 | the four mask-and-shift steps give the word that collecting the sixteen bits from the lowest on gives |
| BitReversal.BitReverseReverses | Externals/SOIL/stb_image_aug.c:1635-1641 | reversing sixteen bits and shifting reverses the lowest bits of the number, for every count up to sixteen |
| Huffman.PrefixFree | Externals/SOIL/stb_image_aug.c:1644-1686 | for lengths that are not over-subscribed no 16 bits begin with two codes of section 3.2.2 of RFC 1951 |
| Huffman.RangeHasMatch | Externals/SOIL/stb_image_aug.c:1744-1751 | 16 bits in the range of a length begin with the code of a symbol of that length |
| Huffman.SlotIsUnique | Externals/SOIL/stb_image_aug.c:1671-1676 | every symbol gets a place of its own in the value table |
| PrefixCodes.CodeByRoom | Externals/SOIL/stb_image_aug.c:1655-1668 | the code of a symbol is at the place that all shorter codes, and equally long ones before it, leave free among the 32768 words of 15 bits |
| PrefixCodes.FitsIff | Externals/SOIL/stb_image_aug.c:1658-1668 | lengths pass the check of the table builder if and only if their codes have room (the inequality of Kraft) |
| HuffmanTable.ZHuffman.Build | Externals/SOIL/stb_image_aug.c:1644-1686 | succeeds exactly on lengths that are not over-subscribed, and then the tables represent the code |
| HuffmanTable.ZHuffman.EnterFast | Externals/SOIL/stb_image_aug.c:1677-1684 | the stride loop enters a code at exactly the fast indices that begin with it |
| HuffmanTable.FastLookup | Externals/SOIL/stb_image_aug.c:1733-1743 | a hit in the fast table is the symbol whose code the input begins with, and its length |
| HuffmanTable.FastMiss | Externals/SOIL/stb_image_aug.c:1744-1747 | a miss means that no code of nine bits or less begins the input |
| HuffmanTable.SlowLookup | Externals/SOIL/stb_image_aug.c:1747-1757 | the first length whose limit is above the reversed bits gives the symbol |
| HuffmanTable.NoSymbol | Externals/SOIL/stb_image_aug.c:1751-1752 | when every limit is passed no code begins the input |
| Inflate.ZBuf.FillBits | Externals/SOIL/stb_image_aug.c:1714-1721 | the reservoir still denotes the unread bits, lowest first, padded with zeros |
| Inflate.ZBuf.Zreceive | Externals/SOIL/stb_image_aug.c:1723-1731 | takes exactly the next n bits |
| Inflate.ZBuf.HuffmanDecode | Externals/SOIL/stb_image_aug.c:1733-1758 | returns the symbol whose code the unread bits begin with and takes exactly its length, on both paths, and -1 when there is none |
| Inflate.ZBuf.MakeRoom | Externals/SOIL/stb_image_aug.c:1760-1775 | output grows only when allowed and then until it fits |
| Inflate.ZBuf.ParseHuffmanBlock | Externals/SOIL/stb_image_aug.c:1791-1817 | does to the output what the block means in section 3.2.3 of RFC 1951, matches as overlapping copies; a block cut short is read on into zero bits, and output without end fails when a fixed buffer is full |
| InflateFormat.EndlessStays | Externals/SOIL/stb_image_aug.c:1791-1817 | once the input is used up, a block whose zero bits do not end it adds output with every symbol and never ends |
| InflateFormat.NoBlockPastEnd | Externals/SOIL/stb_image_aug.c:1928-1933 | a block begun behind the input is a stored one whose length fails its complement, so it is rejected |
| Inflate.ZBuf.ComputeHuffmanCodes | Externals/SOIL/stb_image_aug.c:1819-1863 | reads the code lengths of a dynamic block by section 3.2.7, cut short or not, and builds its tables, failing when they are not codes |
| Inflate.ZBuf.DrainHeader | Externals/SOIL/stb_image_aug.c:1871-1883 | the four bytes are those of LEN and NLEN, the first of them (never more than three) drained from the reservoir and the others read, so that no data byte is lost or repeated |
| Inflate.ZBuf.ParseUncompressedBlock | Externals/SOIL/stb_image_aug.c:1865-1892 | copies the stored bytes, none lost or repeated, and rejects a length that fails its complement or runs past the input |
| Inflate.ZBuf.ParseZlibHeader | Externals/SOIL/stb_image_aug.c:1894-1905 | accepts a header if and only if its check bits are right, it has no preset dictionary and the method is DEFLATE (section 2.2 of RFC 1950) |
| Inflate.FixedFit | Externals/SOIL/stb_image_aug.c:1909-1918 | the fixed code lengths form complete codes, so their tables always build |
| Inflate.ZBuf.ParseZlib | Externals/SOIL/stb_image_aug.c:1921-1950 | on every stream, cut short or not, that stays inside the program's arrays the decoder's output and verdict are those of the bit-position decoder, which DeflateRoundTrip ties to the streams of RFC 1951 |
| DeflateRoundTrip.CodeReads | Externals/SOIL/stb_image_aug.c:1733-1758 | the code of a symbol, written from its top bit under any lengths that fit, decodes to the symbol |
| DeflateRoundTrip.OpReads | Externals/SOIL/stb_image_aug.c:1843-1858 | one operation on the code lengths is read as what it says: symbol 16 with n - 3 in two bits repeats the last length n times, 17 with n - 3 in three bits and 18 with n - 11 in seven give n zeros |
| DeflateRoundTrip.TokensRead | Externals/SOIL/stb_image_aug.c:1791-1817 | every list of literals and matches, written with any codes that have what it needs and ended by symbol 256, decodes to what the list stands for |
| DeflateRoundTrip.FarCopyFails | Externals/SOIL/stb_image_aug.c:1812 | a match that begins before the output, behind any tokens and under any codes, makes the block fail |
| DeflateRoundTrip.ReservedKindFails | Externals/SOIL/stb_image_aug.c:1933-1934 | the fourth kind of block is rejected |
| DeflateRoundTrip.OpsRead | Externals/SOIL/stb_image_aug.c:1838-1859 | code lengths come back however they were written, one by one, as the last one three to six times more or as 3 to 138 zeros, and under any code |
| DeflateRoundTrip.SegmentReads | Externals/SOIL/stb_image_aug.c:1927-1945 | a stored, fixed or dynamic block, at any bit position, decodes to what it stands for |
| DeflateRoundTrip.LiteralsStandFor | Externals/SOIL/stb_image_aug.c:1796-1799 | every output has a list of tokens that stands for it |
| DeflateRoundTrip.RoundTrip | Externals/SOIL/stb_image_aug.c:1921-1960 | from every stream written by RFC 1950 and RFC 1951, its codes, lengths, distances and runs stated apart from the decoder, whatever follows it, the program returns what its blocks stand for; into a fixed buffer exactly when that fits |
| InflateBits.BitsSplit | Externals/SOIL/stb_image_aug.c:1723-1731 | a number of m + n bits is its first m and its next n |
| PngFilters.Paeth | Externals/SOIL/stb_image_aug.c:2074-2083 | the nearest of left, above and corner to their estimate, ties in that order |
| PngFilters.UnfilterInvertsFilter | Externals/SOIL/stb_image_aug.c:2113-2160 | unfiltering a row inverts each of the five filters, for every pixel size |
| PngFilters.FilterInvertsUnfilter | Externals/SOIL/stb_image_aug.c:2113-2160 | and filtering inverts unfiltering |
| PngFilters.DecodeInvertsEncode | Externals/SOIL/stb_image_aug.c:2106-2161 | an image comes back whatever filter each row was given |
| PngEncoding.FiltersByNumber | Externals/SOIL/stb_image_aug.c:2064-2160 | a decoded sample is the byte of the data plus, modulo 256, nothing for type 0, the sample left of it for 1, the one above for 2, half their sum for 3 and the nearest of left, above and corner for 4 |
| PngEncoding.DecodesIff | Externals/SOIL/stb_image_aug.c:2099-2110 | data decodes if and only if it is long enough and all its type bytes are 0 to 4 |
| PngEncoding.StreamIsEncoded | Externals/SOIL/stb_image_aug.c:2106-2160 | a stream of rows, each sample less what its type byte tells to add, is the encoding that decoding inverts |
| PngEncoding.SampleInMemory | Externals/SOIL/stb_image_aug.c:2106-2145 | in memory every sample of a pixel is in its place, and 255 is behind them when alpha is added |
| PngUnfilter.FirstSample | Externals/SOIL/stb_image_aug.c:2113-2124 | the cases of a row's first pixel agree with the general rule |
| PngUnfilter.NextSample | Externals/SOIL/stb_image_aug.c:2130-2160 | so do those of the others, the first row's special filters as the rule with a zero row above |
| PngUnfilter.UnfilterRow | Externals/SOIL/stb_image_aug.c:2106-2160 | in place, a row becomes the decoded row with 255 after each pixel when alpha is added |
| PngUnfilter.Png.CreatePngImageRaw | Externals/SOIL/stb_image_aug.c:2086-2163 | succeeds exactly on data of the right size whose type bytes are 0 to 4 (PngEncoding.DecodesIff), and then holds the image whose samples PngEncoding.FiltersByNumber gives |
| PngEncoding.Recover | Externals/SOIL/stb_image_aug.c:2086-2163 | every image comes back, sample by sample and with 255 for alpha, from the stream in which each row is given any of the five filters of section 6 of RFC 2083, stated by their numbers |
| Adam7.Partition | Externals/SOIL/stb_image_aug.c:2176-2196 | every pixel is written by exactly one pass, column and row |
| Adam7.Pattern | Externals/SOIL/stb_image_aug.c:2176-2179 | the pass of a pixel is the one that the 8 by 8 pattern of section 2.6 of RFC 2083 gives |
| Adam7.PassInBounds | Externals/SOIL/stb_image_aug.c:2182-2183 | the computed pass size holds exactly the columns and rows that fall inside the image |
| PngInterlace.PixelWritten | Externals/SOIL/stb_image_aug.c:2189-2192 | storing a pixel of a pass leaves every other pixel alone |
| PngInterlace.ScatterPass | Externals/SOIL/stb_image_aug.c:2189-2192 | a pass ends up in its places and nothing else changes |
| PngInterlace.CreatePngImage | Externals/SOIL/stb_image_aug.c:2165-2204 | with or without alpha added, an interlaced image loads exactly when every pass, sought where the program seeks it, is long enough and decodes, and then each pixel is the one found there; otherwise loading is refused or reads behind the data |
| PngInterlaceRoundTrip.TargetIsPixel | Externals/SOIL/stb_image_aug.c:2176-2197 | the pass a place belongs to holds that pixel of an interlaced image |
| PngInterlaceRoundTrip.Deinterlace | Externals/SOIL/stb_image_aug.c:2165-2204 | de-interlacing inverts interlacing, whatever the filters |
| PngInterlaceRoundTrip.LoadsWithAlphaIff | Externals/SOIL/stb_image_aug.c:2176-2199 | with alpha added, the exact data of an interlaced image passes all seven passes if and only if the image is one pixel |
| PngInterlaceRoundTrip.DeinterlaceWithAlpha | Externals/SOIL/stb_image_aug.c:2165-2204 | the loader with alpha added completes if and only if the image is one pixel, and then returns it with 255 behind it |
| PngInterlaceRoundTrip.TwoPixels | Externals/SOIL/stb_image_aug.c:2165-2204 | two pixels in eight bytes load without alpha and are refused with alpha |
| Scanlines.ReversedTwice | Externals/SOIL/stb_image_aug.c:2757-2766 | turning an image upside down twice gives it back |
| Scanlines.FlipRows | Externals/SOIL/stb_image_aug.c:3035-3051 | one turn of the in-place flip swaps a row with its mirror image and keeps the others |
| ImageWriter.Blend | Externals/SOIL/stb_image_aug.c:3700-3705 | an opaque sample keeps its value, a transparent one becomes the background, and others lie between |
| ImageWriter.PixelOrders | Externals/SOIL/stb_image_aug.c:3690-3713 | red first or last, alpha in front or behind, a grey level three times |
| ImageWriter.Background | Externals/SOIL/stb_image_aug.c:3700-3705 | without alpha in the file an opaque pixel keeps its colour and a transparent one has that of the background |
| ImageWriter.RowOrders | Externals/SOIL/stb_image_aug.c:3686-3691 | downwards the rows go into the file as they are, upwards the last one first |
| ImageWriter.OutFile.WritePixels | Externals/SOIL/stb_image_aug.c:3680-3717 | appends the rows in either direction, each pixel in either order of its colours and with its alpha before or after, each row with its padding |
| ImageWriter.StbiWriteBmp | Externals/SOIL/stb_image_aug.c:3733-3740 | the file is the header and the padded rows |
| ImageWriter.StbiWriteTga | Externals/SOIL/stb_image_aug.c:3742-3747 | the file is the header and the rows, with alpha for two and four components |
| TgaLoader.NextPixel | Externals/SOIL/stb_image_aug.c:2920-2995 | the run-length state machine delivers the next pixel that the packets stand for |
| TgaLoader.ReadPixels | Externals/SOIL/stb_image_aug.c:2917-3031 | the pixels stored are those of the file or of its colour map, one by one or in packets, converted to the components asked for; what they mean is said by TgaEncoding |
| TgaLoader.TgaLoad | Externals/SOIL/stb_image_aug.c:2849-3067 | on every file, with a colour map or without, the loader returns what the functional decoder says (for pictures, TgaEncoding.PlainLoads and PackedLoads), errors included, and says when it would read outside the map or count more than 2 to the 31st bytes |
| TgaRoundTrip.FileReads | Externals/SOIL/stb_image_aug.c:3742-3747 | for one to four components the written file decodes to the image if and only if the image has fewer than 2 to the 31st bytes |
| TgaRoundTrip.RoundTrip | Externals/SOIL/stb_image_aug.c:2849-3067 | loading what was written returns the original pixels if and only if they are fewer than 2 to the 31st bytes |
| TgaEncoding.PlainLoads | Externals/SOIL/stb_image_aug.c:2849-3055 | every picture of grey, grey and alpha, colours or colours and alpha, stored pixel by pixel or as numbers of a colour map, from either end, loads as its pixels with the components asked for; a number past the map is its first colour |
| TgaEncoding.PackedLoads | Externals/SOIL/stb_image_aug.c:2920-2995 | so does every picture in packets, of one pixel up to 128 times or of up to 128 pixels |
| TgaEncoding.RefusedIff | Externals/SOIL/stb_image_aug.c:2880-2888 | without a colour map a file is refused exactly for an empty image, a kind of image other than the three, plain or packed, or an unknown depth |
| PixelConvert.Weights | Externals/SOIL/stb_image_aug.c:469-472 | red, green and blue weigh 77, 150 and 29 in 256, rounded down |
| Channels.ComputeHighBit | Externals/SOIL/stb_image_aug.c:2547-2557 | the binary search finds the place of the highest bit, and -1 for zero |
| Channels.ComputeShiftSigned | Externals/SOIL/stb_image_aug.c:2569-2584 | the loop adds the copies below the shifted channel, as a byte |
| Channels.FullIff | Externals/SOIL/stb_image_aug.c:2728-2732 | a full channel becomes 255 if and only if it has as many bits as the red mask and not the sign bit, or both have eight and more |
| Channels.FiveBits | Externals/SOIL/stb_image_aug.c:2569-2584 | a channel of five bits becomes eight by repeating its top three below |
| Channels.EightBits | Externals/SOIL/stb_image_aug.c:2559-2584 | a channel of eight bits is taken as it is, also at the sign bit |
| Channels.SixBitGreen | Externals/SOIL/stb_image_aug.c:2729-2731 | the full green of five, six and five bits becomes 3 |
| BmpLoader.ReadPalette | Externals/SOIL/stb_image_aug.c:2676-2689 | the colours read are the ones of the file, stored blue first, and the pixels follow where the program looks for them; BmpEncoding.FileLoads says which colours those are |
| BmpLoader.ReadIndexedLines | Externals/SOIL/stb_image_aug.c:2690-2708 | pixels of four and eight bits, two in a turn, become their colours; a pixel that is none of those read is told apart |
| BmpLoader.ConvertFormat | Externals/SOIL/stb_image_aug.c:474-516 | every pixel is converted to one or two components |
| BmpLoader.BmpLoad | Externals/SOIL/stb_image_aug.c:2586-2779 | on files of the four header kinds and of every depth the loader returns what the functional decoder says (for pictures, BmpEncoding.FileLoads), refuses what it refuses, and says when it would count more than 2 to the 31st bytes or use a colour it never read |
| BmpRoundTrip.LinesRead | Externals/SOIL/stb_image_aug.c:2724-2751 | rows come back in file order without their padding |
| BmpRoundTrip.RoundTrip | Externals/SOIL/stb_image_aug.c:2586-2779 | loading what was written with three components returns the original pixels if and only if they are fewer than 2 to the 31st bytes |
| BmpRoundTrip.SizeField | Externals/SOIL/stb_image_aug.c:3733-3740 | the written header tells the size of the file, modulo 2 to the 32nd |
| BmpEncoding.FileLoads | Externals/SOIL/stb_image_aug.c:2586-2779 | for every size, palette and picture, in either order of the rows and under any of the three newer headers, a file of four or eight bits with its palette, of five bits a colour, of 24 or of 32 bits loads as the colours of its pixels, converted to the components asked for, unless they are 2 to the 31st bytes or more |
| BmpEncoding.OldFileLoads | Externals/SOIL/stb_image_aug.c:2611-2613 | behind the oldest header a file of 4, 8 or 24 bits loads as its pixels when four unused colours follow its palette, which the program leaves unread |
| BmpEncoding.MaskedFileLoads | Externals/SOIL/stb_image_aug.c:2657-2692 | with masks behind the header the pixels are read from twelve bytes after the place the file tells |
| BmpEncoding.Refused | Externals/SOIL/stb_image_aug.c:2593-2616 | files are refused that begin otherwise, have another header, more planes than one, one bit a pixel, or are compressed |
| Rings.RingIsDetermined | Externals/enet/list.c:62-73 | from a sentinel the links describe only one list |
| Rings.SplicedRing | Externals/enet/list.c:20-32 | linking a chain in before a node makes one circular list of both |
| Rings.UnlinkedRing | Externals/enet/list.c:34-41 | unlinking a range leaves a circular list and keeps the range a chain |
| Rings.MoveConserves | Externals/enet/list.c:43-60 | a move loses and duplicates no node, within a list or between two |
| EnetList.Clear | Externals/enet/list.c:13-18 | the list is its sentinel alone |
| EnetList.Insert | Externals/enet/list.c:20-32 | the heap holds the list with the node inserted before the position, linked to both its neighbours |
| EnetList.Remove | Externals/enet/list.c:34-41 | the heap holds the list without the node, whose neighbours are linked to each other and whose own links are left alone |
| EnetList.Move | Externals/enet/list.c:43-60 | the range is spliced in before the position, in the same list or another, linked at both ends to its new neighbours, and the list it left is intact |
| EnetList.Size | Externals/enet/list.c:62-73 | the walk ends, with the number of nodes besides the sentinel |
| Remainders.BurstIsDetected | Externals/enet/packet.c:142-161 | two messages that differ in a burst of at most 32 bits have different checksums |
| CrcResidue.Residue | Externals/enet/packet.c:142-162 | a message followed by its own checksum, lowest bit first, has the checksum 0x2144DF1C, whatever the message |
| CrcResidue.CheckValues | Externals/enet/packet.c:142-162 | the program gives 0 for no buffers and 0xCBF43926, in network order, for the nine digits |
| WordReversal.MirrorTwice | Externals/enet/packet.c:104-116 | reversing n bits twice keeps the lowest n bits |
| WordReversal.MirrorOfSum | Externals/enet/packet.c:104-116 | reversal commutes with polynomial addition |
| Crc32.MirrorOfShiftStep | Externals/enet/packet.c:128-134 | a step with the highest power first mirrors a reflected step |
| Crc32.ByteStep | Externals/enet/packet.c:154-157 | one table lookup is eight steps of the division |
| Crc32.Globals.ReflectCrc | Externals/enet/packet.c:104-116 | the loop reverses the lowest bits |
| Crc32.Globals.InitializeCrc32 | Externals/enet/packet.c:118-140 | every table entry is what eight steps make of its index |
| Crc32.Globals.EnetCrc32 | Externals/enet/packet.c:142-161 | over any list of buffers the result, as stored in memory, is the big-endian CRC-32 of their concatenation, on either byte order; CrcResidue pins what CRC-32 is |

## Left out

- File scanning, graph building from `#include` lines and Python's recursion limit: the search starts from a finite graph.
- LZO input is read with slack bytes behind it, because the decompressors read offset bytes before testing for the end of the input; run lengths are unbounded integers; assertions are compiled out.
- LZO work-memory and pointer comparisons: dictionary entries are positions, any integer to start with. The LZO1Y, LZO1Z and dictionary variants are not compiled and not modelled.
- Adler32.Compute: a null buffer, for which the source returns 1, is not a byte sequence.
- Yay0Codec.Decompress: the two messages for a bad file are one error value.
- Yay0Codec.RoundTrip: holds for sizes that fit the 32-bit header, as the format does; what a larger packed size turns into is not stated.
- Inflate.ZBuf.ParseZlib: nothing is said of streams for which the program leaves defined behaviour (`Unspecified`): a distance symbol 30 or 31 whose match copies what was never written, an invalid code length symbol (an assertion of the program), a repeat with nothing before it, code lengths past the end of their array of 455, and matches of no length that repeat for ever behind the input. Nor of output without end into a growing buffer, which ends when memory does. The Adler-32 trailer is not checked by the program either.
- Inflate.ZBuf.ParseHuffmanBlock: leaves out the same matches, and output without end into a growing buffer.
- Inflate.ZBuf.ComputeHuffmanCodes: leaves out the same code lengths.
- HuffmanTable.ZHuffman.Build: the fixed tables are sequence fields that are reassigned rather than arrays. Placing bits that do not overlap is addition.
- Inflate.ZBuf.MakeRoom: doubling is on unbounded integers, reallocation does not fail, and the output is a growing sequence.
- `stbi_png_partial`, allocation failure, palettes, transparency, 16-bit samples and PNG chunk parsing.
- PngInterlace.CreatePngImage: when the unsigned count of the data left has wrapped, the result is `OutsideData`; what is then read behind the data is not modelled.
- PngUnfilter.UnfilterRow: the loop that the source writes once per filter and once per layout is one loop that looks the filter up at each sample.
- ImageWriter.OutFile.WritePixels: the format strings are header functions and the file is a byte sequence; offsets into the image are unbounded integers, where the program has `int`s, and so is the file size in the BMP header before it is cut to 32 bits.
- TgaLoader.TgaLoad: a colour map that reaches past the file, or has no entries, makes the program read outside its memory; the result is then `OutsideData`. What becomes of an image that is `TooLarge`, here and in BmpLoader.BmpLoad, is not modelled.
- BmpLoader.BmpLoad: dimensions of 2 to the 31st and data offsets inside the header or from 2 to the 31st on are reported as unmodelled. The bits of a mask are counted one by one, not in parallel, and bitwise and is by meaning.
- Crc32.Globals.ReflectCrc: the source shifts a signed `int`; the model shifts unsigned words, which agree on the bits used.
- The font tool's FreeType rendering, file access and command line; ENet's packets and protocol.
- JPEG, PSD, HDR and RGBE decoding, DXT compression, image scaling: mostly floating point or tables.
