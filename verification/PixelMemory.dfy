/** Images in memory: where the bytes of a pixel are. */
module PixelMemory {
  import opened Bytes
  import opened Powers

  /** Byte offset of a pixel in an image `w` pixels wide. */
  function Offset(w: nat, n: nat, x: nat, y: nat): nat {
    (y * w + x) * n
  }

  lemma OffsetInBounds(w: nat, h: nat, n: nat, x: nat, y: nat)
    requires x < w && y < h
    ensures Offset(w, n, x, y) + n <= w * h * n
  {
    Distributes(y, 1, w);
    MulMonotone(y + 1, h, w);
    Distributes(y * w + x, 1, n);
    MulMonotone(y * w + x + 1, w * h, n);
  }

  /** The bytes of different pixels do not overlap. */
  lemma OffsetsApart(w: nat, n: nat, x: nat, y: nat, x': nat, y': nat)
    requires x < w && x' < w && (x != x' || y != y')
    ensures Offset(w, n, x, y) + n <= Offset(w, n, x', y') || Offset(w, n, x', y') + n <= Offset(w, n, x, y)
  {
    var q, q' := y * w + x, y' * w + x';
    DivModUnique(q, w, y, x);
    DivModUnique(q', w, y', x');
    Distributes(q, 1, n);
    Distributes(q', 1, n);
    if q < q' {
      MulMonotone(q + 1, q', n);
    } else {
      MulMonotone(q' + 1, q, n);
    }
  }

  /** A pixel of an image in memory. */
  function Pixel(a: seq<byte>, w: nat, n: nat, x: nat, y: nat): seq<byte> {
    var o := Offset(w, n, x, y);
    if o + n <= |a| then a[o..o + n] else []
  }

  lemma PixelLength(img: seq<byte>, w: nat, n: nat, x: nat, y: nat)
    requires Offset(w, n, x, y) + n <= |img|
    ensures |Pixel(img, w, n, x, y)| == n
  {
  }

  /** An image is determined by its pixels. */
  lemma SamePixels(a: seq<byte>, b: seq<byte>, w: nat, h: nat, n: nat)
    requires |a| == |b| == w * h * n
    requires forall x: nat, y: nat :: x < w && y < h ==> Pixel(a, w, n, x, y) == Pixel(b, w, n, x, y)
    ensures a == b
  {
    hide Pixel;
    forall k | 0 <= k < |a|
      ensures a[k] == b[k]
    {
      var x, y, o := Place(k, w, h, n);
      assert Pixel(a, w, n, x, y) == Pixel(b, w, n, x, y);
      ByteOfPixel(a, w, h, n, x, y, o);
      ByteOfPixel(b, w, h, n, x, y, o);
    }
  }

  lemma ByteOfPixel(a: seq<byte>, w: nat, h: nat, n: nat, x: nat, y: nat, o: nat)
    requires |a| == w * h * n && x < w && y < h && o < n
    ensures Offset(w, n, x, y) + o < |a| && |Pixel(a, w, n, x, y)| == n
            && Pixel(a, w, n, x, y)[o] == a[Offset(w, n, x, y) + o]
  {
    OffsetInBounds(w, h, n, x, y);
    hide Offset;
  }

  /** The pixel a byte is in. */
  lemma Place(k: nat, w: nat, h: nat, n: nat) returns (x: nat, y: nat, o: nat)
    requires k < w * h * n
    ensures x < w && y < h && o < n && k == Offset(w, n, x, y) + o
  {
    QuotientBelow(k, w * h, n);
    var q := k / n;
    o := k % n;
    x, y := PixelOf(q, w, h);
  }

  lemma PixelOf(q: nat, w: nat, h: nat) returns (x: nat, y: nat)
    requires q < w * h
    ensures x < w && y < h && q == y * w + x
  {
    QuotientBelow(q, h, w);
    x, y := q % w, q / w;
  }
}
