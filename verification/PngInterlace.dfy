/** The de-interlacing of a PNG image (`create_png_image`): the passes are decoded one by one
    and their pixels put in their places. */
module PngInterlace {
  import opened Adam7
  import opened Bytes
  import opened PixelMemory
  import opened PngFilters
  import opened PngUnfilter
  import opened Powers

  /** A pixel of a row. */
  function PixelAt(row: seq<byte>, i: nat, n: nat): seq<byte> {
    if i * n + n <= |row| then row[i * n..i * n + n] else []
  }

  // Memory after a pixel is stored

  ghost predicate Put(a: seq<byte>, b: seq<byte>, o: nat, v: seq<byte>) {
    |a| == |b| && o + |v| <= |a| && b == a[..o] + v + a[o + |v|..]
  }

  lemma PutElsewhere(a: seq<byte>, b: seq<byte>, w: nat, h: nat, n: nat, x: nat, y: nat, v: seq<byte>, x': nat, y': nat)
    requires |a| == w * h * n && |v| == n && x < w && y < h && x' < w && y' < h
    requires Put(a, b, Offset(w, n, x, y), v)
    ensures Pixel(b, w, n, x', y') == if x == x' && y == y' then v else Pixel(a, w, n, x', y')
  {
    hide Offset;
    OffsetInBounds(w, h, n, x, y);
    OffsetInBounds(w, h, n, x', y');
    var o, o' := Offset(w, n, x, y), Offset(w, n, x', y');
    if x != x' || y != y' {
      OffsetsApart(w, n, x, y, x', y');
      if o + n <= o' {
        assert b[o'..o' + n] == a[o'..o' + n];
      } else {
        assert b[o'..o' + n] == a[o'..o' + n];
      }
    }
  }

  // A pass in memory

  /** A pixel of a row as it is stored, with `m` samples. */
  function InMemory(row: seq<byte>, i: nat, n: nat, m: nat): seq<byte> {
    var p := PixelAt(row, i, n);
    if |p| == n <= m <= n + 1 then WithAlpha(p, n, m) else []
  }

  ghost predicate Kept(a: seq<byte>, b: seq<byte>, w: nat, h: nat, m: nat, p: nat) {
    && |a| == |b|
    && forall x: nat, y: nat :: x < w && y < h && PassOf(x, y) != p ==> Pixel(b, w, m, x, y) == Pixel(a, w, m, x, y)
  }

  ghost predicate Written(a: seq<byte>, rows: seq<seq<byte>>, w: nat, n: nat, m: nat, p: nat, width: nat, j: nat,
                          i: nat)
    requires p < 7
  {
    forall i': nat, j': nat {:trigger Column(p, i'), Line(p, j')} ::
      i' < width && j' < |rows| && (j' < j || (j' == j && i' < i)) ==>
        Pixel(a, w, m, Column(p, i'), Line(p, j')) == InMemory(rows[j'], i', n, m)
  }

  lemma PixelWritten(was: seq<byte>, a: seq<byte>, b: seq<byte>, rows: seq<seq<byte>>, w: nat, h: nat, n: nat, m: nat,
                     p: nat, j: nat, i: nat)
    requires p < 7 && i < PassWidth(w, p) && j < PassHeight(h, p) == |rows| && |a| == w * h * m
    requires Kept(was, a, w, h, m, p) && Written(a, rows, w, n, m, p, PassWidth(w, p), j, i)
    requires |InMemory(rows[j], i, n, m)| == m
    requires Put(a, b, Offset(w, m, Column(p, i), Line(p, j)), InMemory(rows[j], i, n, m))
    ensures Kept(was, b, w, h, m, p) && Written(b, rows, w, n, m, p, PassWidth(w, p), j, i + 1)
  {
    hide Put, InMemory, Pixel, Offset, PassWidth, PassHeight, PassOf, Column, Line;
    PassInBounds(w, p, i);
    PassInBounds(h, p, j);
    PassOwnsItsPixels(p, i, j);
    var v := InMemory(rows[j], i, n, m);
    assert |b| == |a| by { PutLength(a, b, Offset(w, m, Column(p, i), Line(p, j)), v); }
    forall x: nat, y: nat | x < w && y < h && PassOf(x, y) != p
      ensures Pixel(b, w, m, x, y) == Pixel(was, w, m, x, y)
    {
      PutElsewhere(a, b, w, h, m, Column(p, i), Line(p, j), v, x, y);
    }
    forall i': nat, j': nat | i' < PassWidth(w, p) && j' < |rows| && (j' < j || (j' == j && i' < i + 1))
      ensures Pixel(b, w, m, Column(p, i'), Line(p, j')) == InMemory(rows[j'], i', n, m)
    {
      PassInBounds(w, p, i');
      PassInBounds(h, p, j');
      PassOwnsItsPixels(p, i', j');
      PutElsewhere(a, b, w, h, m, Column(p, i), Line(p, j), v, Column(p, i'), Line(p, j'));
    }
  }

  lemma PutLength(a: seq<byte>, b: seq<byte>, o: nat, v: seq<byte>)
    requires Put(a, b, o, v)
    ensures |b| == |a|
  {
  }

  /** The rows of an image lie one after another. */
  lemma {:induction false} RowAt(rows: seq<seq<byte>>, n: nat, m: nat, x: nat, v: nat, j: nat)
    requires 0 < n <= m <= n + 1 && v == x * m && Image(rows, x * n) && j < |rows|
    ensures 0 <= j * v <= j * v + v <= |Pixels(rows, n, m)|
    ensures Pixels(rows, n, m)[j * v..j * v + v] == Expand(rows[j], n, m)
    decreases |rows|
  {
    hide Expand, Image, Pixels;
    ImageTail(rows, x * n);
    ExpandLength(rows[0], n, m, x);
    PixelsFirst(rows, n, m);
    if j == 0 {
      First(Expand(rows[0], n, m), Pixels(rows[1..], n, m), v);
    } else {
      RowAt(rows[1..], n, m, x, v, j - 1);
      Less(j, v);
      Later(Expand(rows[0], n, m), Pixels(rows[1..], n, m), j * v - v, v);
    }
  }

  lemma PixelsFirst(rows: seq<seq<byte>>, n: nat, m: nat)
    requires 0 < n <= m <= n + 1 && rows != []
    ensures Pixels(rows, n, m) == Expand(rows[0], n, m) + Pixels(rows[1..], n, m)
  {
  }

  lemma First(first: seq<byte>, rest: seq<byte>, v: nat)
    requires |first| == v
    ensures 0 * v == 0 && (first + rest)[0 * v..0 * v + v] == first
  {
  }

  lemma Later(first: seq<byte>, rest: seq<byte>, o: nat, w: nat)
    requires o + w <= |rest| && |first| == w
    ensures (first + rest)[o + w..o + w + w] == rest[o..o + w]
  {
  }

  /** Where a pixel of a row is in memory. */
  lemma RowPixelAt(row: seq<byte>, n: nat, m: nat, x: nat, i: nat)
    requires 0 < n <= m <= n + 1 && |row| == x * n && i < x
    ensures |Expand(row, n, m)| == x * m && 0 <= i * m <= i * m + m <= x * m
    ensures |InMemory(row, i, n, m)| == m && Expand(row, n, m)[i * m..i * m + m] == InMemory(row, i, n, m)
  {
    hide Expand, WithAlpha;
    PixelsBefore(x, n, i);
    PixelsBefore(x, m, i);
    WholePixels(x - 1 - i, n);
    ExpandLength(row, n, m, x);
    ExpandLength(row[..i * n], n, m, i);
    ExpandAt(row, n, m, i * n);
  }

  lemma PixelsBefore(x: nat, n: nat, i: nat)
    requires i < x
    ensures 0 <= i * n <= i * n + n <= x * n && x * n - i * n - n == (x - 1 - i) * n
  {
    Distributes(i, 1, n);
    MulMonotone(i + 1, x, n);
    Distributes(i + 1, x - 1 - i, n);
  }

  lemma PixelsAt(rows: seq<seq<byte>>, n: nat, m: nat, x: nat, j: nat, i: nat)
    requires 0 < n <= m <= n + 1 && Image(rows, x * n) && j < |rows| && i < x
    ensures Offset(x, m, i, j) + m <= |Pixels(rows, n, m)|
    ensures Pixel(Pixels(rows, n, m), x, m, i, j) == InMemory(rows[j], i, n, m) && |InMemory(rows[j], i, n, m)| == m
  {
    hide Pixels, Image, Offset, Expand, InMemory, Pixel;
    ImageRow(rows, x * n, j);
    RowAt(rows, n, m, x, x * m, j);
    RowPixelAt(rows[j], n, m, x, i);
    PixelSlice(Pixels(rows, n, m), Expand(rows[j], n, m), x, m, i, j);
  }

  lemma PixelSlice(a: seq<byte>, row: seq<byte>, x: nat, m: nat, i: nat, j: nat)
    requires |row| == x * m && 0 <= j * (x * m) <= j * (x * m) + x * m <= |a| && i * m + m <= x * m
    requires a[j * (x * m)..j * (x * m) + x * m] == row
    ensures Offset(x, m, i, j) + m <= |a| && Pixel(a, x, m, i, j) == row[i * m..i * m + m]
  {
    hide Offset, Pixel;
    OffsetInRow(x, m, i, j);
    SliceOfSlice(a, j * (x * m), row, i * m, m);
    PixelIs(a, x, m, i, j, Offset(x, m, i, j));
  }

  lemma PixelIs(a: seq<byte>, x: nat, m: nat, i: nat, j: nat, o: nat)
    requires o == Offset(x, m, i, j) && o + m <= |a|
    ensures Pixel(a, x, m, i, j) == a[o..o + m]
  {
  }

  lemma ImageRow(rows: seq<seq<byte>>, w: nat, j: nat)
    requires Image(rows, w) && j < |rows|
    ensures |rows[j]| == w
  {
  }

  lemma OffsetInRow(x: nat, n: nat, i: nat, j: nat)
    ensures Offset(x, n, i, j) == j * (x * n) + i * n
  {
    Distributes(j * x, i, n);
    MulAssociates(j, x, n);
  }

  lemma SliceOfSlice(a: seq<byte>, o: nat, row: seq<byte>, i: nat, n: nat)
    requires o + |row| <= |a| && a[o..o + |row|] == row && i + n <= |row|
    ensures a[o + i..o + i + n] == row[i..i + n]
  {
    assert forall k {:trigger row[k]} :: 0 <= k < |row| ==> row[k] == a[o + k];
  }

  /** Puts the pixels of pass `p`, decoded in `src`, in their places. */
  method ScatterPass(final: array<byte>, src: array<byte>, w: nat, h: nat, n: nat, m: nat, p: nat,
                     ghost rows: seq<seq<byte>>)
    requires p < 7 && 0 < n <= m <= n + 1 && src != final && final.Length == w * h * m
    requires |rows| == PassHeight(h, p) && Image(rows, PassWidth(w, p) * n) && src[..] == Pixels(rows, n, m)
    modifies final
    ensures Kept(old(final[..]), final[..], w, h, m, p)
    ensures Written(final[..], rows, w, n, m, p, PassWidth(w, p), PassHeight(h, p), 0)
  {
    hide Image, Pixels, Pixel, InMemory, Offset, PassWidth, PassHeight, Column, Line, PassOf, Kept, Written, Put;
    ghost var was := final[..];
    var x, y := PassWidth(w, p), PassHeight(h, p);
    NothingWritten(was, rows, w, h, n, m, p, x);
    for j := 0 to y
      invariant Kept(was, final[..], w, h, m, p) && Written(final[..], rows, w, n, m, p, x, j, 0)
      invariant src[..] == Pixels(rows, n, m)
    {
      for i := 0 to x
        invariant Kept(was, final[..], w, h, m, p) && Written(final[..], rows, w, n, m, p, x, j, i)
        invariant src[..] == Pixels(rows, n, m)
      {
        ghost var before := final[..];
        PassInBounds(w, p, i);
        PassInBounds(h, p, j);
        OffsetInBounds(w, h, m, Column(p, i), Line(p, j));
        PixelsAt(rows, n, m, x, j, i);
        var o, from := Offset(w, m, Column(p, i), Line(p, j)), Offset(x, m, i, j);
        forall k | 0 <= k < m {
          final[o + k] := src[from + k];
        }
        assert src[..] == Pixels(rows, n, m);
        PixelCopied(src[..], before, final[..], x, m, i, j, o);
        PixelWritten(was, before, final[..], rows, w, h, n, m, p, j, i);
      }
      LineWritten(final[..], rows, w, n, m, p, x, j);
    }
  }

  lemma NothingWritten(a: seq<byte>, rows: seq<seq<byte>>, w: nat, h: nat, n: nat, m: nat, p: nat, x: nat)
    requires p < 7
    ensures Kept(a, a, w, h, m, p) && Written(a, rows, w, n, m, p, x, 0, 0)
  {
  }

  lemma LineWritten(a: seq<byte>, rows: seq<seq<byte>>, w: nat, n: nat, m: nat, p: nat, x: nat, j: nat)
    requires p < 7 && Written(a, rows, w, n, m, p, x, j, x)
    ensures Written(a, rows, w, n, m, p, x, j + 1, 0)
  {
    hide Column, Line, Pixel, InMemory;
  }

  lemma PixelCopied(src: seq<byte>, a: seq<byte>, b: seq<byte>, x: nat, m: nat, i: nat, j: nat, o: nat)
    requires Offset(x, m, i, j) + m <= |src| && |a| == |b| && o + m <= |a|
    requires forall k {:trigger b[k]} :: 0 <= k < |b| ==>
               b[k] == if o <= k < o + m then src[Offset(x, m, i, j) + k - o] else a[k]
    ensures Put(a, b, o, Pixel(src, x, m, i, j))
  {
    hide Offset;
  }

  // The whole image

  /** How loading ends. The program's unsigned count of the data left wraps when a pass takes
      more than there is; from then on every length test passes and it reads behind the data. */
  datatype Load = Complete | Refused | OutsideData

  /** Where the program looks for pass `p`: behind passes of `m` bytes a pixel and a filter byte a row. */
  function PassStart(w: nat, h: nat, m: nat, p: nat): nat
    requires p <= 7
  {
    if p == 0 then 0 else PassStart(w, h, m, p - 1) + PassSize(w, h, m, p - 1)
  }

  function PassSize(w: nat, h: nat, m: nat, p: nat): nat
    requires p < 7
  {
    if PassEmpty(w, h, p) then 0 else DataSize(PassWidth(w, p), PassHeight(h, p), m)
  }

  function DataSize(x: nat, y: nat, m: nat): nat {
    (x * m + 1) * y
  }

  predicate PassEmpty(w: nat, h: nat, p: nat)
    requires p < 7
  {
    PassWidth(w, p) == 0 || PassHeight(h, p) == 0
  }

  /** What the decoder makes of pass `p`. */
  function PassRows(raw: seq<byte>, w: nat, h: nat, n: nat, m: nat, p: nat): Decoded
    requires p < 7 && n > 0
  {
    var at := PassStart(w, h, m, p);
    if PassEmpty(w, h, p) then Rows(seq(PassHeight(h, p), _ => []))
    else Decode(ZeroRow(PassWidth(w, p) * n), if at <= |raw| then raw[at..] else [], n, PassHeight(h, p))
  }

  function PassLoad(raw: seq<byte>, w: nat, h: nat, n: nat, m: nat, p: nat): Load
    requires p < 7 && n > 0
  {
    var x, y, at := PassWidth(w, p), PassHeight(h, p), PassStart(w, h, m, p);
    if PassEmpty(w, h, p) then Complete
    else if at > |raw| then OutsideData
    else if PassRows(raw, w, h, n, m, p).Rows? && (w == x && h == y ==> |raw| - at == DataSize(x, y, n)) then Complete
    else Refused
  }

  /** How loading the passes from `p` on ends. */
  function PassesLoad(raw: seq<byte>, w: nat, h: nat, n: nat, m: nat, p: nat): Load
    requires p <= 7 && n > 0
    decreases 7 - p
  {
    if p == 7 then Complete
    else if PassLoad(raw, w, h, n, m, p) != Complete then PassLoad(raw, w, h, n, m, p)
    else PassesLoad(raw, w, h, n, m, p + 1)
  }

  /** The pixel that the passes hold for a place in the image. */
  function Target(raw: seq<byte>, w: nat, h: nat, n: nat, m: nat, x: nat, y: nat): seq<byte>
    requires n > 0
  {
    var p := PassOf(x, y);
    RowOf(PassRows(raw, w, h, n, m, p), x / XSPC[p], y / YSPC[p], n, m)
  }

  function RowOf(d: Decoded, i: nat, j: nat, n: nat, m: nat): seq<byte> {
    if d.Rows? && j < |d.rows| then InMemory(d.rows[j], i, n, m) else []
  }

  /** The pixels of the first `count` passes are in their places. */
  ghost predicate Placed(a: seq<byte>, raw: seq<byte>, w: nat, h: nat, n: nat, m: nat, count: nat)
    requires n > 0
  {
    && |a| == w * h * m
    && forall x: nat, y: nat :: x < w && y < h && PassOf(x, y) < count ==>
         Pixel(a, w, m, x, y) == Target(raw, w, h, n, m, x, y)
  }

  lemma PassPlaced(was: seq<byte>, a: seq<byte>, raw: seq<byte>, w: nat, h: nat, n: nat, m: nat, p: nat)
    requires p < 7 && n > 0 && Placed(was, raw, w, h, n, m, p) && Kept(was, a, w, h, m, p)
    requires var d := PassRows(raw, w, h, n, m, p);
             && d.Rows? && |d.rows| == PassHeight(h, p)
             && Written(a, d.rows, w, n, m, p, PassWidth(w, p), PassHeight(h, p), 0)
    ensures Placed(a, raw, w, h, n, m, p + 1)
  {
    hide PassRows, Pixel, InMemory, PassWidth, PassHeight, PassOf, Column, Line;
    forall x: nat, y: nat | x < w && y < h && PassOf(x, y) < p + 1
      ensures Pixel(a, w, m, x, y) == Target(raw, w, h, n, m, x, y)
    {
      if PassOf(x, y) == p {
        PassHasItsPixels(x, y);
        PassInBounds(w, p, x / XSPC[p]);
        PassInBounds(h, p, y / YSPC[p]);
      }
    }
  }

  method CreatePngImage(a: Png, raw: seq<byte>, outN: nat, interlaced: bool) returns (load: Load)
    requires 0 < a.imgN <= outN <= a.imgN + 1 && a.imgX > 0
    modifies a
    ensures var d := Decode(ZeroRow(a.imgX * a.imgN), raw, a.imgN, a.imgY);
            !interlaced ==>
              && load == (if d.Rows? && |raw| == a.RawLength(a.imgX, a.imgY) then Complete else Refused)
              && (load == Complete ==> a.out[..] == Pixels(d.rows, a.imgN, outN))
    ensures interlaced ==> load == PassesLoad(raw, a.imgX, a.imgY, a.imgN, outN, 0)
    ensures interlaced && load == Complete ==> Placed(a.out[..], raw, a.imgX, a.imgY, a.imgN, outN, 7)
  {
    hide Decode, Pixels, Image, PassRows, PassWidth, PassHeight, PassOf, Column, Line, Placed, Kept, Written,
         PassesLoad, PassLoad, PassStart, PassSize, ZeroRow, DataSize, Png.RawLength;
    if !interlaced {
      var ok := a.CreatePngImageRaw(raw, outN, a.imgX, a.imgY);
      return if ok then Complete else Refused;
    }
    var w, h, n := a.imgX, a.imgY, a.imgN;
    var final := new byte[w * h * outN];
    var at: nat := 0;
    NothingPlaced(final[..], raw, w, h, n, outN);
    for p := 0 to 7
      invariant at == PassStart(w, h, outN, p) && fresh(final)
      invariant PassesLoad(raw, w, h, n, outN, 0) == PassesLoad(raw, w, h, n, outN, p)
      invariant Placed(final[..], raw, w, h, n, outN, p)
      modifies a, final
    {
      var x, y := PassWidth(w, p), PassHeight(h, p);
      ghost var was, d := final[..], PassRows(raw, w, h, n, outN, p);
      NextLoad(raw, w, h, n, outN, p);
      if x > 0 && y > 0 {
        FullPass(raw, w, h, n, outN, p);
        RawLengthIs(a, x, y);
        if at > |raw| {
          return OutsideData;
        }
        var ok := a.CreatePngImageRaw(raw[at..], outN, x, y);
        if !ok {
          return Refused;
        }
        ScatterPass(final, a.out, w, h, n, outN, p, d.rows);
        at := at + DataSize(x, y, outN);
      } else {
        EmptyPass(was, raw, w, h, n, outN, p);
      }
      PassPlaced(was, final[..], raw, w, h, n, outN, p);
    }
    a.out := final;
    load := Complete;
    AllLoaded(raw, w, h, n, outN);
  }

  lemma NothingPlaced(a: seq<byte>, raw: seq<byte>, w: nat, h: nat, n: nat, m: nat)
    requires n > 0 && |a| == w * h * m
    ensures Placed(a, raw, w, h, n, m, 0) && PassStart(w, h, m, 0) == 0
  {
  }

  lemma RawLengthIs(a: Png, x: nat, y: nat)
    ensures a.RawLength(x, y) == DataSize(x, y, a.imgN)
  {
  }

  lemma AllLoaded(raw: seq<byte>, w: nat, h: nat, n: nat, m: nat)
    requires n > 0
    ensures PassesLoad(raw, w, h, n, m, 7) == Complete
  {
  }

  lemma NextLoad(raw: seq<byte>, w: nat, h: nat, n: nat, m: nat, p: nat)
    requires n > 0 && p < 7
    ensures PassesLoad(raw, w, h, n, m, p) ==
            if PassLoad(raw, w, h, n, m, p) == Complete then PassesLoad(raw, w, h, n, m, p + 1)
            else PassLoad(raw, w, h, n, m, p)
    ensures PassStart(w, h, m, p + 1) == PassStart(w, h, m, p) + PassSize(w, h, m, p)
  {
    hide PassLoad, PassSize;
  }

  lemma EmptyPass(a: seq<byte>, raw: seq<byte>, w: nat, h: nat, n: nat, m: nat, p: nat)
    requires n > 0 && p < 7 && PassEmpty(w, h, p)
    ensures PassLoad(raw, w, h, n, m, p) == Complete && PassSize(w, h, m, p) == 0 && Kept(a, a, w, h, m, p)
    ensures var d := PassRows(raw, w, h, n, m, p);
            && d.Rows? && |d.rows| == PassHeight(h, p)
            && Written(a, d.rows, w, n, m, p, PassWidth(w, p), PassHeight(h, p), 0)
  {
    hide Column, Line, Pixel, InMemory;
  }

  lemma FullPass(raw: seq<byte>, w: nat, h: nat, n: nat, m: nat, p: nat)
    requires n > 0 && p < 7 && !PassEmpty(w, h, p)
    ensures var x, y, at := PassWidth(w, p), PassHeight(h, p), PassStart(w, h, m, p);
            && PassSize(w, h, m, p) == DataSize(x, y, m)
            && if at > |raw| then PassLoad(raw, w, h, n, m, p) == OutsideData
               else
                 var d := Decode(ZeroRow(x * n), raw[at..], n, y);
                 && PassRows(raw, w, h, n, m, p) == d
                 && (d.Rows? ==> Image(d.rows, x * n) && |d.rows| == y)
                 && PassLoad(raw, w, h, n, m, p) ==
                    if d.Rows? && (w == x && h == y ==> |raw| - at == DataSize(x, y, n)) then Complete else Refused
  {
    hide PassStart, DataSize, PassWidth, PassHeight;
  }
}
