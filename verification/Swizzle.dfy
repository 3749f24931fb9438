/** The 2-bit font images of `gc-font-tool`: blocks of 8 by 8 pixels, two bytes to a block's
    row, four pixels to a byte. */
module Swizzle {
  import opened Powers

  type pixel = bv8

  /** Four 8-bit pixels, shrunk to 2 bits. */
  function Pack(a: pixel, b: pixel, c: pixel, d: pixel): bv8 {
    (a & 0xC0) | ((b >> 2) & 0x30) | ((c >> 4) & 0x0C) | (d >> 6)
  }

  /** Pixel `k` of a byte, expanded to 8 bits. */
  function Unpack(v: bv8, k: nat): pixel
    requires k < 4
  {
    if k == 0 then (v >> 6) * 0x55
    else if k == 1 then ((v >> 4) & 0x03) * 0x55
    else if k == 2 then ((v >> 2) & 0x03) * 0x55
    else (v & 0x03) * 0x55
  }

  /** What is left of a pixel at 2 bits. */
  function Quantised(p: pixel): pixel {
    (p >> 6) * 0x55
  }

  lemma PackUnpack(v: bv8)
    ensures Pack(Unpack(v, 0), Unpack(v, 1), Unpack(v, 2), Unpack(v, 3)) == v
  {
  }

  lemma UnpackPack(a: pixel, b: pixel, c: pixel, d: pixel)
    ensures Unpack(Pack(a, b, c, d), 0) == Quantised(a) && Unpack(Pack(a, b, c, d), 1) == Quantised(b)
    ensures Unpack(Pack(a, b, c, d), 2) == Quantised(c) && Unpack(Pack(a, b, c, d), 3) == Quantised(d)
  {
  }

  // The layout

  /** A row of a block: its row of blocks, its block in that, and its row in the block. */
  datatype Spot = Spot(blockRow: nat, block: nat, row: nat)

  /** In an image of `h` rows of `w` blocks. */
  predicate InImage(t: Spot, w: nat, h: nat) {
    t.blockRow < h && t.block < w && t.row < 8
  }

  predicate Earlier(t: Spot, u: Spot) {
    t.blockRow < u.blockRow || (t.blockRow == u.blockRow
                                && (t.block < u.block || (t.block == u.block && t.row < u.row)))
  }

  /** The first of the eight pixels of a block's row, in an 8-bit image. */
  function PixelsAt(w: nat, t: Spot): nat {
    t.blockRow * w * 64 + t.block * 8 + t.row * w * 8
  }

  /** The first of its two bytes, in a 2-bit image. */
  function BytesAt(w: nat, t: Spot): nat {
    t.blockRow * w * 16 + t.block * 16 + t.row * 2
  }

  lemma PixelsFactor(w: nat, t: Spot)
    ensures PixelsAt(w, t) == ((t.blockRow * 8 + t.row) * w + t.block) * 8
  {
    Distributes(t.blockRow * 8, t.row, w);
    assert t.blockRow * 8 * w == t.blockRow * w * 8;
  }

  lemma BytesFactor(w: nat, t: Spot)
    ensures BytesAt(w, t) == ((t.blockRow * w + t.block) * 8 + t.row) * 2
  {
  }

  /** `a` numbers of up to `w` make numbers of up to `a * w`. */
  lemma NumberInBounds(q: nat, r: nat, w: nat, a: nat)
    requires q < a && r < w
    ensures q * w + r < a * w
  {
    Distributes(q, 1, w);
    MulMonotone(q + 1, a, w);
  }

  lemma SpotInBounds(w: nat, h: nat, t: Spot)
    requires InImage(t, w, h)
    ensures PixelsAt(w, t) + 8 <= h * w * 64 && BytesAt(w, t) + 2 <= h * w * 16
  {
    hide PixelsAt, BytesAt;
    PixelsFactor(w, t);
    BytesFactor(w, t);
    NumberInBounds(t.blockRow * 8 + t.row, t.block, w, h * 8);
    NumberInBounds(t.blockRow, t.block, w, h);
    assert h * 8 * w == h * w * 8;
  }

  /** No two spots share a pixel or a byte. */
  lemma SpotsApart(w: nat, h: nat, t: Spot, u: Spot)
    requires InImage(t, w, h) && InImage(u, w, h) && t != u
    ensures PixelsAt(w, t) + 8 <= PixelsAt(w, u) || PixelsAt(w, u) + 8 <= PixelsAt(w, t)
    ensures BytesAt(w, t) + 2 <= BytesAt(w, u) || BytesAt(w, u) + 2 <= BytesAt(w, t)
  {
    hide PixelsAt, BytesAt;
    PixelsFactor(w, t);
    PixelsFactor(w, u);
    BytesFactor(w, t);
    BytesFactor(w, u);
    OnlyOnce(t.blockRow * 8 + t.row, t.block, u.blockRow * 8 + u.row, u.block, w);
    OnlyOnce(t.blockRow, t.block, u.blockRow, u.block, w);
    assert (t.blockRow * 8 + t.row) / 8 == t.blockRow && (u.blockRow * 8 + u.row) / 8 == u.blockRow;
  }

  lemma OnlyOnce(q: nat, r: nat, q': nat, r': nat, w: nat)
    requires r < w && r' < w
    ensures q * w + r == q' * w + r' ==> q == q' && r == r'
  {
    DivModUnique(q * w + r, w, q, r);
    DivModUnique(q' * w + r', w, q', r');
  }

  /** Every byte belongs to a spot... */
  lemma SpotOfByte(w: nat, h: nat, i: nat) returns (t: Spot, o: nat)
    requires i < h * w * 16
    ensures InImage(t, w, h) && o < 2 && i == BytesAt(w, t) + o
  {
    var q := i / 16;
    assert q < h * w;
    QuotientBelow(q, h, w);
    t, o := Spot(q / w, q % w, i % 16 / 2), i % 2;
    BytesFactor(w, t);
  }

  /** ...and so does every pixel. */
  lemma SpotOfPixel(w: nat, h: nat, i: nat) returns (t: Spot, o: nat)
    requires i < h * w * 64
    ensures InImage(t, w, h) && o < 8 && i == PixelsAt(w, t) + o
  {
    var q := i / 8;
    assert q < h * 8 * w by { assert h * 8 * w == h * w * 8; }
    QuotientBelow(q, h * 8, w);
    t, o := Spot(q / w / 8, q % w, q / w % 8), i % 8;
    PixelsFactor(w, t);
  }

  // The two encodings of a spot

  ghost predicate EncodedAt(out: seq<bv8>, data: seq<pixel>, w: nat, t: Spot) {
    var b, p := BytesAt(w, t), PixelsAt(w, t);
    && b + 2 <= |out| && p + 8 <= |data|
    && out[b] == Pack(data[p], data[p + 1], data[p + 2], data[p + 3])
    && out[b + 1] == Pack(data[p + 4], data[p + 5], data[p + 6], data[p + 7])
  }

  ghost predicate DecodedAt(out: seq<pixel>, data: seq<bv8>, w: nat, t: Spot) {
    var b, p := BytesAt(w, t), PixelsAt(w, t);
    && b + 2 <= |data| && p + 8 <= |out|
    && out[p] == Unpack(data[b], 0) && out[p + 1] == Unpack(data[b], 1)
    && out[p + 2] == Unpack(data[b], 2) && out[p + 3] == Unpack(data[b], 3)
    && out[p + 4] == Unpack(data[b + 1], 0) && out[p + 5] == Unpack(data[b + 1], 1)
    && out[p + 6] == Unpack(data[b + 1], 2) && out[p + 7] == Unpack(data[b + 1], 3)
  }

  ghost predicate Encoded(out: seq<bv8>, data: seq<pixel>, w: nat, h: nat, u: Spot) {
    forall t: Spot :: InImage(t, w, h) && Earlier(t, u) ==> EncodedAt(out, data, w, t)
  }

  ghost predicate Decoded(out: seq<pixel>, data: seq<bv8>, w: nat, h: nat, u: Spot) {
    forall t: Spot :: InImage(t, w, h) && Earlier(t, u) ==> DecodedAt(out, data, w, t)
  }

  /** After the last spot. */
  function End(h: nat): Spot {
    Spot(h, 0, 0)
  }

  lemma EncodedNext(out: seq<bv8>, out': seq<bv8>, data: seq<pixel>, w: nat, h: nat, u: Spot)
    requires InImage(u, w, h) && Encoded(out, data, w, h, u) && EncodedAt(out', data, w, u) && |out| == |out'|
    requires forall i :: 0 <= i < |out| && !(BytesAt(w, u) <= i < BytesAt(w, u) + 2) ==> out'[i] == out[i]
    ensures Encoded(out', data, w, h, u.(row := u.row + 1))
  {
    hide Pack, BytesAt, PixelsAt, Earlier;
    forall t: Spot | InImage(t, w, h) && Earlier(t, u.(row := u.row + 1))
      ensures EncodedAt(out', data, w, t)
    {
      NextSpot(t, u);
      if t != u {
        SpotsApart(w, h, t, u);
        assert EncodedAt(out, data, w, t);
      }
    }
  }

  lemma DecodedNext(out: seq<pixel>, out': seq<pixel>, data: seq<bv8>, w: nat, h: nat, u: Spot)
    requires InImage(u, w, h) && Decoded(out, data, w, h, u) && DecodedAt(out', data, w, u) && |out| == |out'|
    requires forall i :: 0 <= i < |out| && !(PixelsAt(w, u) <= i < PixelsAt(w, u) + 8) ==> out'[i] == out[i]
    ensures Decoded(out', data, w, h, u.(row := u.row + 1))
  {
    hide Unpack, BytesAt, PixelsAt, Earlier;
    forall t: Spot | InImage(t, w, h) && Earlier(t, u.(row := u.row + 1))
      ensures DecodedAt(out', data, w, t)
    {
      NextSpot(t, u);
      if t != u {
        SpotsApart(w, h, t, u);
        assert DecodedAt(out, data, w, t);
      }
    }
  }

  lemma NextSpot(t: Spot, u: Spot)
    ensures Earlier(t, u.(row := u.row + 1)) <==> Earlier(t, u) || t == u
  {
  }

  /** The order of the spots carries over to the next block and to the next row of blocks. */
  lemma Carry(t: Spot, w: nat, h: nat, u: Spot)
    requires InImage(t, w, h)
    ensures u.row == 8 ==> (Earlier(t, u) <==> Earlier(t, Spot(u.blockRow, u.block + 1, 0)))
    ensures u.row == 0 && u.block == w ==> (Earlier(t, u) <==> Earlier(t, Spot(u.blockRow + 1, 0, 0)))
    ensures !Earlier(t, Spot(0, 0, 0)) && Earlier(t, End(h))
  {
  }

  datatype Image = Image(data: seq<bv8>, width: nat)

  method I2Encode(image: Image) returns (out: Image)
    requires image.width >= 8
    ensures var w := image.width / 8;
            var h := Quotient(|image.data|, w * 64);
            |out.data| == h * w * 16 && out.width == w * 8 && Encoded(out.data, image.data, w, h, End(h))
  {
    hide Pack, Earlier, EncodedAt, Encoded, Quotient;
    var data, w := image.data, image.width / 8;
    var h := Quotient(|data|, w * 64);
    WholeRows(|data|, w, h, 64);
    var buffer := new bv8[h * w * 16];
    EncodedCarries(buffer[..], data, w, h, Spot(0, 0, 0));
    for blockRow := 0 to h
      invariant Encoded(buffer[..], data, w, h, Spot(blockRow, 0, 0))
    {
      for block := 0 to w
        invariant Encoded(buffer[..], data, w, h, Spot(blockRow, block, 0))
      {
        for row := 0 to 8
          invariant Encoded(buffer[..], data, w, h, Spot(blockRow, block, row))
        {
          ghost var was, t := buffer[..], Spot(blockRow, block, row);
          SpotInBounds(w, h, t);
          var src := blockRow * w * 64 + block * 8 + row * w * 8;
          var dst := blockRow * w * 16 + block * 16 + row * 2;
          buffer[dst] := Pack(data[src], data[src + 1], data[src + 2], data[src + 3]);
          buffer[dst + 1] := Pack(data[src + 4], data[src + 5], data[src + 6], data[src + 7]);
          RowEncoded(buffer[..], data, w, t);
          EncodedNext(was, buffer[..], data, w, h, t);
        }
        EncodedCarries(buffer[..], data, w, h, Spot(blockRow, block, 8));
      }
      EncodedCarries(buffer[..], data, w, h, Spot(blockRow, w, 0));
    }
    out := Image(buffer[..], w * 8);
  }

  lemma RowEncoded(out: seq<bv8>, data: seq<pixel>, w: nat, t: Spot)
    requires var b, p := BytesAt(w, t), PixelsAt(w, t);
             && b + 2 <= |out| && p + 8 <= |data|
             && out[b] == Pack(data[p], data[p + 1], data[p + 2], data[p + 3])
             && out[b + 1] == Pack(data[p + 4], data[p + 5], data[p + 6], data[p + 7])
    ensures EncodedAt(out, data, w, t)
  {
    hide Pack, BytesAt, PixelsAt;
  }

  lemma WholeRows(n: nat, w: nat, h: nat, k: nat)
    requires w > 0 && k > 0 && w * k > 0 && h == Quotient(n, w * k)
    ensures 0 <= h * w * k <= n && h * w >= 0
  {
    DivBounds(n, w * k);
    MulAssociates(h, w, k);
  }

  lemma EncodedCarries(out: seq<bv8>, data: seq<pixel>, w: nat, h: nat, u: Spot)
    ensures u == Spot(0, 0, 0) ==> Encoded(out, data, w, h, u)
    ensures u.row == 8 && Encoded(out, data, w, h, u) ==> Encoded(out, data, w, h, Spot(u.blockRow, u.block + 1, 0))
    ensures u.row == 0 && u.block == w && Encoded(out, data, w, h, u)
            ==> Encoded(out, data, w, h, Spot(u.blockRow + 1, 0, 0))
  {
    hide EncodedAt, InImage, Earlier;
    forall t: Spot | InImage(t, w, h)
      ensures u.row == 8 ==> (Earlier(t, u) <==> Earlier(t, Spot(u.blockRow, u.block + 1, 0)))
      ensures u.row == 0 && u.block == w ==> (Earlier(t, u) <==> Earlier(t, Spot(u.blockRow + 1, 0, 0)))
      ensures !Earlier(t, Spot(0, 0, 0))
    {
      Carry(t, w, h, u);
    }
  }

  method UnpackRow(buffer: array<pixel>, src1: bv8, src2: bv8, dst: nat)
    requires dst + 8 <= buffer.Length
    modifies buffer
    ensures forall i :: 0 <= i < buffer.Length && !(dst <= i < dst + 8) ==> buffer[i] == old(buffer[i])
    ensures buffer[dst] == Unpack(src1, 0) && buffer[dst + 1] == Unpack(src1, 1)
    ensures buffer[dst + 2] == Unpack(src1, 2) && buffer[dst + 3] == Unpack(src1, 3)
    ensures buffer[dst + 4] == Unpack(src2, 0) && buffer[dst + 5] == Unpack(src2, 1)
    ensures buffer[dst + 6] == Unpack(src2, 2) && buffer[dst + 7] == Unpack(src2, 3)
  {
    hide Unpack;
    buffer[dst] := Unpack(src1, 0);
    buffer[dst + 1] := Unpack(src1, 1);
    buffer[dst + 2] := Unpack(src1, 2);
    buffer[dst + 3] := Unpack(src1, 3);
    buffer[dst + 4] := Unpack(src2, 0);
    buffer[dst + 5] := Unpack(src2, 1);
    buffer[dst + 6] := Unpack(src2, 2);
    buffer[dst + 7] := Unpack(src2, 3);
  }

  method I2Decode(image: Image) returns (out: Image)
    requires image.width > 0
    ensures var w := (image.width + 7) / 8;
            var h := Quotient(|image.data|, w * 16);
            |out.data| == h * w * 64 && out.width == w * 8 && Decoded(out.data, image.data, w, h, End(h))
  {
    hide Unpack, Earlier, DecodedAt, Decoded, Quotient;
    var data, w := image.data, (image.width + 7) / 8;
    var h := Quotient(|data|, w * 16);
    WholeRows(|data|, w, h, 16);
    var size: nat := h * w * 64;
    var buffer := new bv8[size];
    DecodedCarries(buffer[..], data, w, h, Spot(0, 0, 0));
    for blockRow := 0 to h
      invariant Decoded(buffer[..], data, w, h, Spot(blockRow, 0, 0))
    {
      for block := 0 to w
        invariant Decoded(buffer[..], data, w, h, Spot(blockRow, block, 0))
        modifies buffer
      {
        for row := 0 to 8
          invariant Decoded(buffer[..], data, w, h, Spot(blockRow, block, row))
        {
          ghost var was, t := buffer[..], Spot(blockRow, block, row);
          SpotInBounds(w, h, t);
          var src := blockRow * w * 16 + block * 16 + row * 2;
          var dst := blockRow * w * 64 + block * 8 + row * w * 8;
          var src1, src2 := data[src], data[src + 1];
          UnpackRow(buffer, src1, src2, dst);
          RowDecoded(buffer[..], data, w, t);
          DecodedNext(was, buffer[..], data, w, h, t);
        }
        DecodedCarries(buffer[..], data, w, h, Spot(blockRow, block, 8));
      }
      DecodedCarries(buffer[..], data, w, h, Spot(blockRow, w, 0));
    }
    out := Image(buffer[..], w * 8);
  }

  lemma RowDecoded(out: seq<pixel>, data: seq<bv8>, w: nat, t: Spot)
    requires var b, p := BytesAt(w, t), PixelsAt(w, t);
             && b + 2 <= |data| && p + 8 <= |out|
             && out[p] == Unpack(data[b], 0) && out[p + 1] == Unpack(data[b], 1)
             && out[p + 2] == Unpack(data[b], 2) && out[p + 3] == Unpack(data[b], 3)
             && out[p + 4] == Unpack(data[b + 1], 0) && out[p + 5] == Unpack(data[b + 1], 1)
             && out[p + 6] == Unpack(data[b + 1], 2) && out[p + 7] == Unpack(data[b + 1], 3)
    ensures DecodedAt(out, data, w, t)
  {
    hide Unpack, BytesAt, PixelsAt;
  }

  lemma DecodedCarries(out: seq<pixel>, data: seq<bv8>, w: nat, h: nat, u: Spot)
    ensures u == Spot(0, 0, 0) ==> Decoded(out, data, w, h, u)
    ensures u.row == 8 && Decoded(out, data, w, h, u) ==> Decoded(out, data, w, h, Spot(u.blockRow, u.block + 1, 0))
    ensures u.row == 0 && u.block == w && Decoded(out, data, w, h, u)
            ==> Decoded(out, data, w, h, Spot(u.blockRow + 1, 0, 0))
  {
    hide DecodedAt, InImage, Earlier;
    forall t: Spot | InImage(t, w, h)
      ensures u.row == 8 ==> (Earlier(t, u) <==> Earlier(t, Spot(u.blockRow, u.block + 1, 0)))
      ensures u.row == 0 && u.block == w ==> (Earlier(t, u) <==> Earlier(t, Spot(u.blockRow + 1, 0, 0)))
      ensures !Earlier(t, Spot(0, 0, 0))
    {
      Carry(t, w, h, u);
    }
  }

  // Round trips

  /** A decoded spot encodes to the bytes it came from. */
  lemma SpotReencoded(data: seq<bv8>, pixels: seq<pixel>, out: seq<bv8>, w: nat, t: Spot)
    requires DecodedAt(pixels, data, w, t) && EncodedAt(out, pixels, w, t)
    ensures var b := BytesAt(w, t); b + 2 <= |data| && b + 2 <= |out| && out[b] == data[b] && out[b + 1] == data[b + 1]
  {
    hide Pack, Unpack, BytesAt, PixelsAt;
    var b := BytesAt(w, t);
    PackUnpack(data[b]);
    PackUnpack(data[b + 1]);
  }

  /** An encoded spot decodes to its pixels at 2 bits. */
  lemma SpotRedecoded(data: seq<pixel>, bytes: seq<bv8>, out: seq<pixel>, w: nat, t: Spot, o: nat)
    requires EncodedAt(bytes, data, w, t) && DecodedAt(out, bytes, w, t) && o < 8
    ensures var i := PixelsAt(w, t) + o; i < |data| && i < |out| && out[i] == Quantised(data[i])
  {
    hide Pack, Unpack, Quantised, BytesAt, PixelsAt;
    var p := PixelsAt(w, t);
    UnpackPack(data[p], data[p + 1], data[p + 2], data[p + 3]);
    UnpackPack(data[p + 4], data[p + 5], data[p + 6], data[p + 7]);
  }

  /** Encoding undoes decoding, for images of whole blocks. */
  method Reencode(image: Image) returns (out: Image)
    requires image.width > 0 && image.width % 8 == 0 && |image.data| % (image.width / 8 * 16) == 0
    ensures out == image
  {
    hide Earlier, EncodedAt, DecodedAt, Quotient;
    var decoded := I2Decode(image);
    out := I2Encode(decoded);
    ghost var w := image.width / 8;
    ghost var h := Quotient(|image.data|, w * 16);
    WholeBlocks(|image.data|, w, h);
    hide Encoded, Decoded;
    forall i | 0 <= i < |image.data|
      ensures out.data[i] == image.data[i]
    {
      ByteReencoded(image.data, decoded.data, out.data, w, h, i);
    }
  }

  lemma ByteReencoded(data: seq<bv8>, pixels: seq<pixel>, out: seq<bv8>, w: nat, h: nat, i: nat)
    requires i < |data| == |out| == h * w * 16
    requires Decoded(pixels, data, w, h, End(h)) && Encoded(out, pixels, w, h, End(h))
    ensures out[i] == data[i]
  {
    hide Earlier, EncodedAt, DecodedAt, BytesAt, InImage;
    var t, o := SpotOfByte(w, h, i);
    Carry(t, w, h, t);
    SpotReencoded(data, pixels, out, w, t);
  }

  lemma WholeBlocks(n: nat, w: nat, h: nat)
    requires w > 0 && n % (w * 16) == 0 && h == Quotient(n, w * 16)
    ensures n == h * w * 16 && h == Quotient(h * w * 64, w * 64)
  {
    MulAssociates(h, w, 16);
    MulAssociates(h, w, 64);
    DivModUnique(h * w * 64, w * 64, h, 0);
  }

  /** Decoding what was encoded keeps every pixel in its place, at 2 bits. */
  method Requantise(image: Image) returns (out: Image)
    requires image.width > 0 && image.width % 8 == 0 && |image.data| % (image.width / 8 * 64) == 0
    ensures out.width == image.width && |out.data| == |image.data|
    ensures forall i :: 0 <= i < |image.data| ==> out.data[i] == Quantised(image.data[i])
  {
    hide Earlier, EncodedAt, DecodedAt, Quantised, Quotient;
    var encoded := I2Encode(image);
    ghost var w := image.width / 8;
    ghost var h := Quotient(|image.data|, w * 64);
    WholePixels(|image.data|, w, h);
    out := I2Decode(encoded);
    hide Encoded, Decoded;
    forall i | 0 <= i < |image.data|
      ensures out.data[i] == Quantised(image.data[i])
    {
      PixelRequantised(image.data, encoded.data, out.data, w, h, i);
    }
  }

  lemma PixelRequantised(data: seq<pixel>, bytes: seq<bv8>, out: seq<pixel>, w: nat, h: nat, i: nat)
    requires i < |data| == |out| == h * w * 64
    requires Encoded(bytes, data, w, h, End(h)) && Decoded(out, bytes, w, h, End(h))
    ensures out[i] == Quantised(data[i])
  {
    hide Earlier, EncodedAt, DecodedAt, Quantised, PixelsAt, InImage;
    var t, o := SpotOfPixel(w, h, i);
    Carry(t, w, h, t);
    SpotRedecoded(data, bytes, out, w, t, o);
  }

  lemma WholePixels(n: nat, w: nat, h: nat)
    requires w > 0 && n % (w * 64) == 0 && h == Quotient(n, w * 64)
    ensures n == h * w * 64 && h == Quotient(h * w * 16, w * 16)
  {
    MulAssociates(h, w, 16);
    MulAssociates(h, w, 64);
    DivModUnique(h * w * 16, w * 16, h, 0);
  }

  /** Four pixels of 8 bits in a byte, the first one in its top bits; and back, each level a third
      of 255. */
  lemma PackIs(a: pixel, b: pixel, c: pixel, d: pixel, v: bv8)
    ensures Pack(a, b, c, d) == ((a >> 6) << 6) | ((b >> 6) << 4) | ((c >> 6) << 2) | (d >> 6)
    ensures Unpack(v, 0) == (v >> 6) * 85 && Unpack(v, 3) == (v & 3) * 85
    ensures Unpack(v, 1) == ((v >> 4) & 3) * 85 && Unpack(v, 2) == ((v >> 2) & 3) * 85
  {
  }

  /** Row `row` of block `block`: eight pixels of the row of the image that the blocks' row and
      its own make, and two of the bytes that the blocks have one after the other. */
  lemma SpotsAre(w: nat, t: Spot)
    ensures PixelsAt(w, t) == (t.blockRow * 8 + t.row) * (w * 8) + t.block * 8
    ensures BytesAt(w, t) == ((t.blockRow * w + t.block) * 8 + t.row) * 2
  {
    PixelsFactor(w, t);
    BytesFactor(w, t);
    MulAssociates(t.blockRow * 8 + t.row, w, 8);
  }
}
