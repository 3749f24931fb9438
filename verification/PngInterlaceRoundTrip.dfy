/** Interlaced PNG images of every size: what the loader makes of them without alpha added, and
    with it. */
module PngInterlaceRoundTrip {
  import opened Adam7
  import opened Bytes
  import opened PixelMemory
  import opened PngFilters
  import opened PngInterlace
  import opened PngUnfilter
  import opened Powers

  // The encoder's side

  /** Row `j` of pass `p` of an image in memory, up to `width` pixels of it. */
  function PassRow(img: seq<byte>, w: nat, n: nat, p: nat, j: nat, width: nat): seq<byte>
    requires p < 7
  {
    if width == 0 then [] else PassRow(img, w, n, p, j, width - 1) + Pixel(img, w, n, Column(p, width - 1), Line(p, j))
  }

  function PassImage(img: seq<byte>, w: nat, h: nat, n: nat, p: nat): seq<seq<byte>>
    requires p < 7
  {
    seq(PassHeight(h, p), j requires 0 <= j < PassHeight(h, p) => PassRow(img, w, n, p, j, PassWidth(w, p)))
  }

  lemma {:induction false} PassRowAt(img: seq<byte>, w: nat, h: nat, n: nat, p: nat, j: nat, width: nat)
    requires p < 7 && |img| == w * h * n && j < PassHeight(h, p) && width <= PassWidth(w, p)
    ensures |PassRow(img, w, n, p, j, width)| == width * n
    ensures forall i :: 0 <= i < width ==>
              PixelAt(PassRow(img, w, n, p, j, width), i, n) == Pixel(img, w, n, Column(p, i), Line(p, j))
  {
    hide PassWidth, PassHeight, Column, Line, Offset, Pixel, PixelAt;
    if width > 0 {
      PassRowAt(img, w, h, n, p, j, width - 1);
      PassInBounds(w, p, width - 1);
      PassInBounds(h, p, j);
      OffsetInBounds(w, h, n, Column(p, width - 1), Line(p, j));
      var init, last := PassRow(img, w, n, p, j, width - 1), Pixel(img, w, n, Column(p, width - 1), Line(p, j));
      PixelLength(img, w, n, Column(p, width - 1), Line(p, j));
      Less(width, n);
      forall i | 0 <= i < width
        ensures PixelAt(init + last, i, n) == if i < width - 1 then PixelAt(init, i, n) else last
      {
        PixelAppended(init, last, n, width - 1, i);
      }
    }
  }

  lemma PixelAppended(init: seq<byte>, last: seq<byte>, n: nat, k: nat, i: nat)
    requires |init| == k * n && |last| == n && i <= k
    ensures PixelAt(init + last, i, n) == if i < k then PixelAt(init, i, n) else last
  {
    if i < k {
      MulMonotone(i + 1, k, n);
      Distributes(i, 1, n);
    }
  }

  ghost predicate PassFilters(filters: seq<seq<byte>>, h: nat) {
    |filters| == 7 && forall p: nat :: p < 7 ==> |filters[p]| == PassHeight(h, p) && Filters(filters[p])
  }

  lemma PassImageRows(img: seq<byte>, w: nat, h: nat, n: nat, p: nat)
    requires p < 7 && |img| == w * h * n
    ensures Image(PassImage(img, w, h, n, p), PassWidth(w, p) * n)
  {
    hide PassWidth, PassHeight, PassRow;
    forall j: nat | j < PassHeight(h, p)
      ensures |PassRow(img, w, n, p, j, PassWidth(w, p))| == PassWidth(w, p) * n
    {
      PassRowAt(img, w, h, n, p, j, PassWidth(w, p));
    }
  }

  /** The bytes of pass `p`. */
  function PassData(img: seq<byte>, w: nat, h: nat, n: nat, filters: seq<seq<byte>>, p: nat): (data: seq<byte>)
    requires p < 7 && n > 0 && |img| == w * h * n && PassFilters(filters, h)
  {
    PassImageRows(img, w, h, n, p);
    if PassEmpty(w, h, p) then []
    else Encode(ZeroRow(PassWidth(w, p) * n), PassImage(img, w, h, n, p), filters[p], n)
  }

  lemma PassDataLength(img: seq<byte>, w: nat, h: nat, n: nat, filters: seq<seq<byte>>, p: nat)
    requires p < 7 && n > 0 && |img| == w * h * n && PassFilters(filters, h)
    ensures |PassData(img, w, h, n, filters, p)| == PassSize(w, h, n, p)
  {
    hide PassWidth, PassHeight, Encode, Image;
    PassImageRows(img, w, h, n, p);
    if !PassEmpty(w, h, p) {
      EncodeLength(ZeroRow(PassWidth(w, p) * n), PassImage(img, w, h, n, p), filters[p], n);
    }
  }

  /** The interlaced image from pass `p` on. */
  function Interlace(img: seq<byte>, w: nat, h: nat, n: nat, filters: seq<seq<byte>>, p: nat): seq<byte>
    requires p <= 7 && n > 0 && |img| == w * h * n && PassFilters(filters, h)
    decreases 7 - p
  {
    if p == 7 then [] else PassData(img, w, h, n, filters, p) + Interlace(img, w, h, n, filters, p + 1)
  }

  lemma {:induction false} PassesFrom(img: seq<byte>, w: nat, h: nat, n: nat, filters: seq<seq<byte>>, p: nat)
    requires p <= 7 && n > 0 && |img| == w * h * n && PassFilters(filters, h)
    ensures PassStart(w, h, n, p) <= |Interlace(img, w, h, n, filters, 0)|
    ensures Interlace(img, w, h, n, filters, 0)[PassStart(w, h, n, p)..] == Interlace(img, w, h, n, filters, p)
  {
    hide PassData, PassSize, PassFilters, Interlace;
    assert PassStart(w, h, n, 0) == 0;
    hide PassStart;
    if p > 0 {
      PassesFrom(img, w, h, n, filters, p - 1);
      PassDataLength(img, w, h, n, filters, p - 1);
      PassFollows(img, w, h, n, filters, p - 1);
      SuffixStep(Interlace(img, w, h, n, filters, 0), PassStart(w, h, n, p - 1), PassData(img, w, h, n, filters, p - 1),
                 Interlace(img, w, h, n, filters, p));
    }
  }

  lemma PassFollows(img: seq<byte>, w: nat, h: nat, n: nat, filters: seq<seq<byte>>, p: nat)
    requires p < 7 && n > 0 && |img| == w * h * n && PassFilters(filters, h)
    ensures PassStart(w, h, n, p + 1) == PassStart(w, h, n, p) + PassSize(w, h, n, p)
    ensures Interlace(img, w, h, n, filters, p)
            == PassData(img, w, h, n, filters, p) + Interlace(img, w, h, n, filters, p + 1)
  {
    hide PassData, PassSize, PassFilters;
  }

  lemma SuffixStep(raw: seq<byte>, start: nat, data: seq<byte>, rest: seq<byte>)
    requires start <= |raw| && raw[start..] == data + rest
    ensures start + |data| <= |raw| && raw[start + |data|..] == rest
  {
    assert raw[start..][|data|..] == raw[start + |data|..];
  }

  /** A pass that is looked for where it starts decodes to the part of the image it holds. */
  lemma PassDecodes(img: seq<byte>, w: nat, h: nat, n: nat, filters: seq<seq<byte>>, m: nat, p: nat)
    requires p < 7 && n > 0 && |img| == w * h * n && PassFilters(filters, h)
    requires PassStart(w, h, m, p) == PassStart(w, h, n, p)
    ensures !PassEmpty(w, h, p) ==>
              var raw := Interlace(img, w, h, n, filters, 0);
              PassStart(w, h, m, p) <= |raw| && PassRows(raw, w, h, n, m, p) == Rows(PassImage(img, w, h, n, p))
  {
    hide PassEmpty, PassWidth, PassHeight, PassStart, PassSize, Encode, Decode, Image, Filters, Interlace, PassImage;
    if !PassEmpty(w, h, p) {
      PassesFrom(img, w, h, n, filters, p);
      PassFollows(img, w, h, n, filters, p);
      PassImageRows(img, w, h, n, p);
      PassImageLength(img, w, h, n, p);
      DecodeInvertsEncode(ZeroRow(PassWidth(w, p) * n), PassImage(img, w, h, n, p), filters[p], n,
                          Interlace(img, w, h, n, filters, p + 1));
    }
  }

  lemma PassImageLength(img: seq<byte>, w: nat, h: nat, n: nat, p: nat)
    requires p < 7
    ensures |PassImage(img, w, h, n, p)| == PassHeight(h, p)
  {
  }

  /** No pass is as large as the image unless the image is a single pixel, and that is in pass 0. */
  lemma PassSizes(w: nat, h: nat, p: nat)
    requires p < 7 && !PassEmpty(w, h, p)
    ensures PassWidth(w, p) == w && PassHeight(h, p) == h ==> w == h == 1
    ensures w == h == 1 ==> p == 0 && PassWidth(w, p) == PassHeight(h, p) == 1
  {
  }

  /** Every pass that is looked for where it starts loads. */
  lemma PassLoads(img: seq<byte>, w: nat, h: nat, n: nat, filters: seq<seq<byte>>, m: nat, p: nat)
    requires p < 7 && n > 0 && |img| == w * h * n && PassFilters(filters, h)
    requires PassStart(w, h, m, p) == PassStart(w, h, n, p)
    ensures PassLoad(Interlace(img, w, h, n, filters, 0), w, h, n, m, p) == Complete
  {
    hide PassLoad, PassEmpty, PassWidth, PassHeight, PassStart, PassRows, Interlace, DataSize, PassFilters, Decode,
         Image;
    var raw := Interlace(img, w, h, n, filters, 0);
    if PassEmpty(w, h, p) {
      EmptyPass([], raw, w, h, n, m, p);
    } else {
      PassDecodes(img, w, h, n, filters, m, p);
      FullPass(raw, w, h, n, m, p);
      PassSizes(w, h, p);
      if w == h == 1 {
        OnePixelLength(img, n, filters);
      }
    }
  }

  lemma OnePixelLength(img: seq<byte>, n: nat, filters: seq<seq<byte>>)
    requires n > 0 && |img| == 1 * 1 * n && PassFilters(filters, 1)
    ensures PassStart(1, 1, n, 0) == 0 && |Interlace(img, 1, 1, n, filters, 0)| == DataSize(1, 1, n)
  {
    hide PassStart, PassFilters, Interlace, DataSize;
    OnePixel(n);
    WholeLength(img, 1, 1, n, filters);
    NothingBefore(1, 1, n);
  }

  lemma NothingBefore(w: nat, h: nat, n: nat)
    ensures PassStart(w, h, n, 0) == 0
  {
  }

  lemma WholeLength(img: seq<byte>, w: nat, h: nat, n: nat, filters: seq<seq<byte>>)
    requires n > 0 && |img| == w * h * n && PassFilters(filters, h)
    ensures |Interlace(img, w, h, n, filters, 0)| == PassStart(w, h, n, 7)
  {
    hide PassStart, PassFilters, PassData;
    PassesFrom(img, w, h, n, filters, 7);
  }

  lemma OnePixel(n: nat)
    ensures PassStart(1, 1, n, 7) == DataSize(1, 1, n)
  {
    assert PassStart(1, 1, n, 1) == DataSize(1, 1, n);
    assert PassStart(1, 1, n, 3) == DataSize(1, 1, n);
    assert PassStart(1, 1, n, 5) == DataSize(1, 1, n);
  }

  // Loading as a whole

  /** Loading is complete if and only if every pass loads. */
  lemma {:induction false} CompleteIff(raw: seq<byte>, w: nat, h: nat, n: nat, m: nat, p: nat)
    requires p <= 7 && n > 0
    ensures PassesLoad(raw, w, h, n, m, p) == Complete
            <==> forall q: nat :: p <= q < 7 ==> PassLoad(raw, w, h, n, m, q) == Complete
    decreases 7 - p
  {
    hide PassLoad;
    if p < 7 {
      CompleteIff(raw, w, h, n, m, p + 1);
    }
  }

  /** Where a place of the image is looked for, its pixel is found. */
  lemma TargetIsPixel(img: seq<byte>, w: nat, h: nat, n: nat, filters: seq<seq<byte>>, m: nat, x: nat, y: nat)
    requires 0 < n <= m <= n + 1 && |img| == w * h * n && PassFilters(filters, h) && x < w && y < h
    requires PassStart(w, h, m, PassOf(x, y)) == PassStart(w, h, n, PassOf(x, y))
    ensures |Pixel(img, w, n, x, y)| == n
    ensures Target(Interlace(img, w, h, n, filters, 0), w, h, n, m, x, y) == WithAlpha(Pixel(img, w, n, x, y), n, m)
  {
    hide PassWidth, PassHeight, PassStart, PassRows, Interlace, PassFilters, Column, Line, PassOf, Pixel, PixelAt,
         PassRow, WithAlpha;
    var p := PassOf(x, y);
    var i, j := x / XSPC[p], y / YSPC[p];
    PassHasItsPixels(x, y);
    PassInBounds(w, p, i);
    PassInBounds(h, p, j);
    PassDecodes(img, w, h, n, filters, m, p);
    PassRowAt(img, w, h, n, p, j, PassWidth(w, p));
    assert |Pixel(img, w, n, x, y)| == n by {
      OffsetInBounds(w, h, n, x, y);
      PixelLength(img, w, n, x, y);
    }
  }

  /** De-interlacing inverts interlacing, whatever filters the rows of the passes were given. */
  method Deinterlace(a: Png, img: seq<byte>, filters: seq<seq<byte>>) returns (load: Load)
    requires a.imgX > 0 && a.imgN > 0 && |img| == a.imgX * a.imgY * a.imgN && PassFilters(filters, a.imgY)
    modifies a
    ensures load == Complete && a.out[..] == img
  {
    hide PassFilters, PassRows, PassLoad, PassesLoad, Interlace, Pixel, PassOf, Decode, Target, PassWidth, PassHeight,
         PassStart;
    var w, h, n := a.imgX, a.imgY, a.imgN;
    var raw := Interlace(img, w, h, n, filters, 0);
    forall p: nat | p < 7
      ensures PassLoad(raw, w, h, n, n, p) == Complete
    {
      PassLoads(img, w, h, n, filters, n, p);
    }
    CompleteIff(raw, w, h, n, n, 0);
    load := CreatePngImage(a, raw, n, true);
    forall x: nat, y: nat | x < w && y < h
      ensures Pixel(a.out[..], w, n, x, y) == Pixel(img, w, n, x, y)
    {
      TargetIsPixel(img, w, h, n, filters, n, x, y);
    }
    SamePixels(a.out[..], img, w, h, n);
  }

  // With an alpha channel added

  lemma LastPass(w: nat, h: nat)
    requires w > 0 && h > 0 && !(w == h == 1)
    ensures var p := if h > 1 then 6 else 5; !PassEmpty(w, h, p) && forall q: nat :: p < q < 7 ==> PassEmpty(w, h, q)
  {
  }

  /** With alpha every pass but the first is looked for late. */
  lemma {:induction false} Drifts(w: nat, h: nat, n: nat, p: nat)
    requires 0 < p <= 7 && w > 0 && h > 0
    ensures PassStart(w, h, n + 1, p) > PassStart(w, h, n, p)
  {
    hide PassWidth, PassHeight, PassEmpty, DataSize;
    Grows(PassWidth(w, p - 1), PassHeight(h, p - 1), n);
    if p > 1 {
      Drifts(w, h, n, p - 1);
    } else {
      FirstPassHasPixels(w, h);
    }
  }

  lemma Grows(x: nat, y: nat, n: nat)
    ensures DataSize(x, y, n + 1) >= DataSize(x, y, n)
    ensures x > 0 && y > 0 ==> DataSize(x, y, n + 1) > DataSize(x, y, n)
  {
    Distributes(x * n + 1, x, y);
    assert x * (n + 1) + 1 == x * n + 1 + x;
    assert x > 0 && y > 0 ==> x * y > 0;
  }

  lemma FirstPassHasPixels(w: nat, h: nat)
    requires w > 0 && h > 0
    ensures !PassEmpty(w, h, 0) && PassWidth(w, 0) > 0 && PassHeight(h, 0) > 0
  {
  }

  /** So the last pass finds too little data, or none. */
  lemma LastPassFails(img: seq<byte>, w: nat, h: nat, n: nat, filters: seq<seq<byte>>)
    requires n > 0 && w > 0 && h > 0 && !(w == h == 1) && |img| == w * h * n && PassFilters(filters, h)
    ensures PassLoad(Interlace(img, w, h, n, filters, 0), w, h, n, n + 1, if h > 1 then 6 else 5) != Complete
  {
    hide PassWidth, PassHeight, PassEmpty, PassStart, PassSize, Interlace, Decode, DataSize;
    var raw, p := Interlace(img, w, h, n, filters, 0), if h > 1 then 6 else 5;
    LastPass(w, h);
    Drifts(w, h, n, p);
    DataEnds(img, w, h, n, filters, p);
    FullPass(raw, w, h, n, n + 1, p);
    var at, x, y := PassStart(w, h, n + 1, p), PassWidth(w, p), PassHeight(h, p);
    if at <= |raw| {
      assert DataSize(x, y, n) == (|ZeroRow(x * n)| + 1) * y by { SizeOf(x, y, n); }
      ShortIsCorrupt(ZeroRow(x * n), raw[at..], n, y);
    }
  }

  lemma SizeOf(x: nat, y: nat, n: nat)
    ensures DataSize(x, y, n) == (|ZeroRow(x * n)| + 1) * y
  {
  }

  /** The data ends with the last pass. */
  lemma DataEnds(img: seq<byte>, w: nat, h: nat, n: nat, filters: seq<seq<byte>>, p: nat)
    requires n > 0 && |img| == w * h * n && PassFilters(filters, h) && p < 7
    requires !PassEmpty(w, h, p) && forall q: nat :: p < q < 7 ==> PassEmpty(w, h, q)
    ensures |Interlace(img, w, h, n, filters, 0)|
            == PassStart(w, h, n, p) + DataSize(PassWidth(w, p), PassHeight(h, p), n)
  {
    hide PassWidth, PassHeight, PassEmpty, Interlace, PassFilters, DataSize;
    WholeLength(img, w, h, n, filters);
    NothingAfter(w, h, n, p + 1);
  }

  lemma {:induction false} NothingAfter(w: nat, h: nat, n: nat, p: nat)
    requires p <= 7 && forall q: nat :: p <= q < 7 ==> PassEmpty(w, h, q)
    ensures PassStart(w, h, n, 7) == PassStart(w, h, n, p)
    decreases 7 - p
  {
    hide PassEmpty;
    if p < 7 {
      NothingAfter(w, h, n, p + 1);
    }
  }

  /** A pixel is its image. */
  lemma OnlyPixel(a: seq<byte>, n: nat)
    requires |a| == 1 * 1 * n
    ensures Pixel(a, 1, n, 0, 0) == a && PassOf(0, 0) == 0
  {
  }

  /** The exact data of an interlaced image, loaded with an alpha sample added to each pixel: the
      loader does so if and only if the image is a single pixel. */
  method DeinterlaceWithAlpha(a: Png, img: seq<byte>, filters: seq<seq<byte>>) returns (load: Load)
    requires a.imgX > 0 && a.imgY > 0 && a.imgN > 0
    requires |img| == a.imgX * a.imgY * a.imgN && PassFilters(filters, a.imgY)
    modifies a
    ensures load == Complete <==> a.imgX == a.imgY == 1
    ensures load == Complete ==> a.out[..] == img + [255]
  {
    hide PassFilters, PassRows, PassLoad, PassesLoad, Interlace, Pixel, PassOf, Decode, Target, PassWidth, PassHeight,
         PassEmpty, PassStart;
    var w, h, n := a.imgX, a.imgY, a.imgN;
    var raw := Interlace(img, w, h, n, filters, 0);
    LoadsWithAlphaIff(img, w, h, n, filters);
    load := CreatePngImage(a, raw, n + 1, true);
    if load == Complete {
      OnlyPixel(img, n);
      OnlyPixel(a.out[..], n + 1);
      NothingBefore(1, 1, n);
      NothingBefore(1, 1, n + 1);
      TargetIsPixel(img, 1, 1, n, filters, n + 1, 0, 0);
      assert Pixel(a.out[..], 1, n + 1, 0, 0) == Target(raw, 1, 1, n, n + 1, 0, 0);
    }
  }

  lemma LoadsWithAlphaIff(img: seq<byte>, w: nat, h: nat, n: nat, filters: seq<seq<byte>>)
    requires n > 0 && w > 0 && h > 0 && |img| == w * h * n && PassFilters(filters, h)
    ensures PassesLoad(Interlace(img, w, h, n, filters, 0), w, h, n, n + 1, 0) == Complete <==> w == h == 1
  {
    hide PassFilters, PassRows, PassesLoad, Interlace, PassWidth, PassHeight, PassLoad, PassStart;
    var raw := Interlace(img, w, h, n, filters, 0);
    CompleteIff(raw, w, h, n, n + 1, 0);
    if w == h == 1 {
      NothingBefore(1, 1, n);
      NothingBefore(1, 1, n + 1);
      PassLoads(img, 1, 1, n, filters, n + 1, 0);
      var m := n + 1;
      forall p: nat | 0 < p < 7
        ensures PassLoad(raw, 1, 1, n, m, p) == Complete
      {
        OtherPassesEmpty(p);
        EmptyPass([], raw, 1, 1, n, m, p);
      }
    } else {
      LastPassFails(img, w, h, n, filters);
    }
  }

  lemma OtherPassesEmpty(p: nat)
    requires 0 < p < 7
    ensures PassEmpty(1, 1, p)
  {
  }

  /** Two pixels of three samples, eight bytes of data: the second pass, sought one byte late,
      finds three of its four bytes. */
  method TwoPixels() returns (plain: Load, withAlpha: Load)
    ensures plain == Complete && withAlpha == Refused
  {
    hide PassesLoad, PassLoad, PassRows, Placed, Decode;
    var raw: seq<byte> := [0, 10, 20, 30, 0, 40, 50, 60];
    var a := new Png(2, 1, 3);
    TwoPixelsLoad(raw, 3);
    TwoPixelsLoad(raw, 4);
    plain := CreatePngImage(a, raw, 3, true);
    withAlpha := CreatePngImage(a, raw, 4, true);
  }

  lemma TwoPixelsLoad(raw: seq<byte>, m: nat)
    requires raw == [0, 10, 20, 30, 0, 40, 50, 60] && 3 <= m <= 4
    ensures PassesLoad(raw, 2, 1, 3, m, 0) == if m == 3 then Complete else Refused
  {
    hide PassLoad, PassesLoad, PassStart, Decode;
    TwoPixelsPasses(m);
    FullPass(raw, 2, 1, 3, m, 0);
    FullPass(raw, 2, 1, 3, m, 5);
    OneRow(ZeroRow(3), raw[0..], 3);
    OneRow(ZeroRow(3), raw[m + 1..], 3);
    forall p: nat | p in {1, 2, 3, 4, 6}
      ensures PassLoad(raw, 2, 1, 3, m, p) == Complete
    {
      EmptyPass([], raw, 2, 1, 3, m, p);
    }
    FirstNotLoaded(raw, 2, 1, 3, m, 5);
    if m == 3 {
      CompleteIff(raw, 2, 1, 3, m, 0);
    }
  }

  lemma TwoPixelsPasses(m: nat)
    ensures forall p: nat :: p in {1, 2, 3, 4, 6} ==> PassEmpty(2, 1, p)
    ensures !PassEmpty(2, 1, 0) && PassWidth(2, 0) == 1 && PassHeight(1, 0) == 1 && PassStart(2, 1, m, 0) == 0
    ensures !PassEmpty(2, 1, 5) && PassWidth(2, 5) == 1 && PassHeight(1, 5) == 1 && PassStart(2, 1, m, 5) == m + 1
  {
    assert PassStart(2, 1, m, 1) == m + 1;
    assert PassStart(2, 1, m, 3) == m + 1;
  }

  lemma OneRow(prior: seq<byte>, raw: seq<byte>, n: nat)
    requires n > 0
    ensures Decode(prior, raw, n, 1).Rows? <==> |raw| > |prior| && raw[0] <= 4
  {
  }

  /** Loading ends with the first pass that does not load. */
  lemma FirstNotLoaded(raw: seq<byte>, w: nat, h: nat, n: nat, m: nat, p: nat)
    requires p < 7 && n > 0 && forall q: nat :: q < p ==> PassLoad(raw, w, h, n, m, q) == Complete
    ensures PassLoad(raw, w, h, n, m, p) != Complete ==> PassesLoad(raw, w, h, n, m, 0) == PassLoad(raw, w, h, n, m, p)
  {
    hide PassLoad;
    if PassLoad(raw, w, h, n, m, p) != Complete {
      var q: nat := p;
      while q > 0
        invariant q <= p && PassesLoad(raw, w, h, n, m, q) == PassLoad(raw, w, h, n, m, p)
      {
        q := q - 1;
      }
    }
  }
}
