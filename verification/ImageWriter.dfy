/** The uncompressed image writers of `stb_image` (`write_pixels`, `stbi_write_bmp`,
    `stbi_write_tga`): what they append to the file. */
module ImageWriter {
  import opened Basics
  import opened Bytes
  import opened Powers
  import opened Scanlines

  function Low8(x: int): byte {
    x % 256
  }

  function Le16(x: int): seq<byte> {
    [Low8(x), Low8(x / 0x100)]
  }

  function Le32(x: int): seq<byte> {
    [Low8(x), Low8(x / 0x100), Low8(x / 0x1_0000), Low8(x / 0x100_0000)]
  }

  const BACKGROUND: seq<byte> := [255, 0, 255]

  /** A sample over the background, by the alpha given. */
  function Blend(d: byte, bg: byte, alpha: byte): (r: byte)
    ensures alpha == 255 ==> r == d
    ensures alpha == 0 ==> r == bg
    ensures d <= r <= bg || bg <= r <= d
  {
    BlendBounds(d - bg, alpha);
    bg + TruncatedDiv((d - bg) * alpha, 255)
  }

  lemma BlendBounds(v: int, alpha: byte)
    requires -255 <= v <= 255
    ensures v >= 0 ==> 0 <= TruncatedDiv(v * alpha, 255) <= v
    ensures v <= 0 ==> v <= TruncatedDiv(v * alpha, 255) <= 0
    ensures alpha == 255 ==> TruncatedDiv(v * alpha, 255) == v
  {
    if v >= 0 {
      MulMonotone(alpha, 255, v);
    } else {
      MulMonotone(alpha, 255, -v);
      assert (-v) * alpha == -(v * alpha);
    }
  }

  function Blended(d: seq<byte>, k: nat): byte
    requires |d| == 4 && k < 3
  {
    Blend(d[k], BACKGROUND[k], d[3])
  }

  /** How an image is written: its samples per pixel, red first or last, the alpha before the
      colour (negative), after it (positive) or left out, and the padding of a row. */
  datatype Layout = Layout(comp: nat, rgbDir: int, alpha: int, pad: nat) {
    predicate Valid() {
      1 <= comp <= 4 && (rgbDir == -1 || rgbDir == 1)
    }
  }

  function Colour(d: seq<byte>, l: Layout): seq<byte>
    requires l.Valid() && |d| == l.comp
  {
    if l.comp <= 2 then [d[0], d[0], d[0]]
    else if l.comp == 4 && l.alpha == 0 then [Blended(d, 1 - l.rgbDir), Blended(d, 1), Blended(d, 1 + l.rgbDir)]
    else [d[1 - l.rgbDir], d[1], d[1 + l.rgbDir]]
  }

  function WrittenPixel(d: seq<byte>, l: Layout): seq<byte>
    requires l.Valid() && |d| == l.comp
  {
    var alpha := [d[l.comp - 1]];
    (if l.alpha < 0 then alpha else []) + Colour(d, l) + (if l.alpha > 0 then alpha else [])
  }

  function WrittenRow(row: seq<byte>, l: Layout): seq<byte>
    requires l.Valid()
  {
    if |row| < l.comp then [] else WrittenPixel(row[..l.comp], l) + WrittenRow(row[l.comp..], l)
  }

  function Zeros(n: nat): seq<byte> {
    seq(n, _ => 0)
  }

  /** The rows in the file, the last row of the image first. */
  function WrittenRows(data: seq<byte>, w: nat, y: nat, l: Layout): seq<byte>
    requires l.Valid() && |data| == w * y
    decreases y
  {
    if y == 0 then []
    else
      LastRow(w, y);
      WrittenRow(data[w * (y - 1)..], l) + Zeros(l.pad) + WrittenRows(data[..w * (y - 1)], w, y - 1, l)
  }

  /** Upwards, the rows are written from the last one on; downwards, as those of the image
      upside down. */
  function Directed(data: seq<byte>, w: nat, y: nat, vdir: int): (r: seq<byte>)
    requires |data| == w * y
    ensures |r| == |data|
  {
    if vdir < 0 then data else RowsReversed(data, w, y)
  }

  /** Row `j` is the last of the first `left` rows still to be written. */
  lemma DirectedRow(data: seq<byte>, w: nat, y: nat, vdir: int, left: nat)
    requires |data| == w * y && 0 < left <= y
    ensures var j := if vdir < 0 then left - 1 else y - left;
            Row(Directed(data, w, y, vdir), w, left - 1) == Row(data, w, j)
  {
    if vdir >= 0 {
      ReversedRow(data, w, y, left - 1);
    }
  }

  class OutFile {
    var bytes: seq<byte>

    constructor ()
      ensures bytes == []
    {
      bytes := [];
    }

    method Fwrite(data: seq<byte>)
      modifies this
      ensures bytes == old(bytes) + data
    {
      bytes := bytes + data;
    }

    method WritePixels(rgbDir: int, vdir: int, x: nat, y: nat, comp: nat, data: seq<byte>, writeAlpha: int,
                       scanlinePad: nat)
      requires 1 <= comp <= 4 && (rgbDir == -1 || rgbDir == 1) && (vdir == -1 || vdir == 1)
      requires scanlinePad <= 4 && |data| == x * comp * y
      modifies this
      ensures bytes == old(bytes) + WrittenRows(Directed(data, x * comp, y, vdir), x * comp, y,
                                                Layout(comp, rgbDir, writeAlpha, scanlinePad))
    {
      hide WrittenRow, WrittenRows, WrittenPixel, Directed, StillTo;
      var w, l := x * comp, Layout(comp, rgbDir, writeAlpha, scanlinePad);
      var j: int, jEnd: int := 0, y;
      if vdir < 0 {
        j, jEnd := y - 1, -1;
      }
      ghost var start, all, left: nat := bytes, Directed(data, w, y, vdir), y;
      AllToWrite(bytes, all, w, y, l);
      while j != jEnd
        invariant left <= y && j == if vdir < 0 then left - 1 else y - left
        invariant StillTo(bytes, left, w, l, all, y, start)
        decreases left
      {
        NextRow(bytes, data, w, y, vdir, left, l, start);
        ghost var before := bytes;
        WriteRow(data[w * j..w * j + w], x, l);
        Fwrite(Zeros(l.pad));
        j := j + vdir;
        left := left - 1;
      }
      NoneToWrite(bytes, all, w, y, l, start);
    }

    method WriteRow(row: seq<byte>, x: nat, l: Layout)
      requires l.Valid() && |row| == x * l.comp
      modifies this
      ensures bytes == old(bytes) + WrittenRow(row, l)
    {
      hide WrittenRow, WrittenPixel;
      ghost var start := bytes;
      var at: nat := 0;
      assert row[0..] == row;
      for i := 0 to x
        invariant at <= |row| && |row| - at == (x - i) * l.comp
        invariant bytes + WrittenRow(row[at..], l) == start + WrittenRow(row, l)
      {
        LastRow(l.comp, x - i);
        var d := row[at..at + l.comp];
        PixelsLeft(row[at..], l, bytes);
        assert row[at..][..l.comp] == d && row[at..][l.comp..] == row[at + l.comp..];
        WritePixel(d, l);
        at := at + l.comp;
      }
      NoPixelsLeft(row[at..], l, bytes);
    }

    method WritePixel(d: seq<byte>, l: Layout)
      requires l.Valid() && |d| == l.comp
      modifies this
      ensures bytes == old(bytes) + WrittenPixel(d, l)
    {
      hide Blend;
      ghost var start := bytes;
      if l.alpha < 0 {
        Fwrite([d[l.comp - 1]]);
      }
      if l.comp <= 2 {
        Fwrite([d[0], d[0], d[0]]);
      } else if l.comp == 4 && l.alpha == 0 {
        var px := [Blend(d[0], BACKGROUND[0], d[3]), Blend(d[1], BACKGROUND[1], d[3]),
                   Blend(d[2], BACKGROUND[2], d[3])];
        Fwrite([px[1 - l.rgbDir], px[1], px[1 + l.rgbDir]]);
      } else {
        Fwrite([d[1 - l.rgbDir], d[1], d[1 + l.rgbDir]]);
      }
      assert bytes == start + (if l.alpha < 0 then [d[l.comp - 1]] else []) + Colour(d, l);
      if l.alpha > 0 {
        Fwrite([d[l.comp - 1]]);
      }
    }
  }

  /** With the first `left` rows of `all` written too, the file is as it should be. */
  ghost predicate StillTo(bytes: seq<byte>, left: nat, w: nat, l: Layout, all: seq<byte>, y: nat, start: seq<byte>) {
    && l.Valid() && left <= y && |all| == w * y && |all[..w * left]| == w * left
    && bytes + WrittenRows(all[..w * left], w, left, l) == start + WrittenRows(all, w, y, l)
  }

  lemma AllToWrite(bytes: seq<byte>, all: seq<byte>, w: nat, y: nat, l: Layout)
    requires l.Valid() && |all| == w * y
    ensures StillTo(bytes, y, w, l, all, y, bytes)
  {
    assert all[..w * y] == all;
  }

  lemma NoneToWrite(bytes: seq<byte>, all: seq<byte>, w: nat, y: nat, l: Layout, start: seq<byte>)
    requires |all| == w * y && StillTo(bytes, 0, w, l, all, y, start)
    ensures l.Valid() && bytes == start + WrittenRows(all, w, y, l)
  {
    NoRowsLeft(all[..w * 0], w, l, bytes);
  }

  /** The next row written is the next one in the direction of the loop. */
  lemma NextRow(bytes: seq<byte>, data: seq<byte>, w: nat, y: nat, vdir: int, left: nat, l: Layout, start: seq<byte>)
    requires |data| == w * y && 0 < left <= y && StillTo(bytes, left, w, l, Directed(data, w, y, vdir), y, start)
    ensures var j := if vdir < 0 then left - 1 else y - left;
            && 0 <= w * j <= w * j + w <= |data| && l.Valid()
            && StillTo(bytes + WrittenRow(data[w * j..w * j + w], l) + Zeros(l.pad), left - 1, w, l,
                       Directed(data, w, y, vdir), y, start)
  {
    hide Directed, WrittenRows, WrittenRow, Row;
    var all, j := Directed(data, w, y, vdir), if vdir < 0 then left - 1 else y - left;
    RowsLeft(all[..w * left], w, left, l, bytes);
    DirectedRow(data, w, y, vdir, left);
    RowIs(all, w, y, left - 1);
    RowIs(data, w, y, j);
    LastOf(all, w, left);
  }

  lemma LastOf(all: seq<byte>, w: nat, left: nat)
    requires left > 0 && w * left <= |all|
    ensures 0 <= w * (left - 1) == w * left - w
    ensures all[..w * left][w * (left - 1)..] == all[w * (left - 1)..w * (left - 1) + w]
    ensures all[..w * left][..w * (left - 1)] == all[..w * (left - 1)]
  {
    LastRow(w, left);
  }

  lemma PixelsLeft(row: seq<byte>, l: Layout, done: seq<byte>)
    requires l.Valid() && |row| >= l.comp
    ensures done + WrittenRow(row, l) == done + WrittenPixel(row[..l.comp], l) + WrittenRow(row[l.comp..], l)
  {
    hide WrittenPixel;
  }

  lemma NoPixelsLeft(row: seq<byte>, l: Layout, done: seq<byte>)
    requires l.Valid() && row == []
    ensures done + WrittenRow(row, l) == done
  {
  }

  lemma RowsLeft(data: seq<byte>, w: nat, y: nat, l: Layout, done: seq<byte>)
    requires l.Valid() && |data| == w * y && y > 0
    ensures 0 <= w * (y - 1) == w * y - w
    ensures done + WrittenRows(data, w, y, l) ==
            done + WrittenRow(data[w * (y - 1)..], l) + Zeros(l.pad) + WrittenRows(data[..w * (y - 1)], w, y - 1, l)
  {
    hide WrittenRow;
    LastRow(w, y);
  }

  lemma NoRowsLeft(data: seq<byte>, w: nat, l: Layout, done: seq<byte>)
    requires l.Valid() && |data| == w * 0
    ensures done + WrittenRows(data, w, 0, l) == done
  {
  }

  function BmpHeader(x: nat, y: nat): (h: seq<byte>)
    ensures |h| == 54
  {
    [0x42, 0x4D] + Le32(54 + (x * 3 + RowPadding(x)) * y) + Le16(0) + Le16(0) + Le32(54)
    + Le32(40) + Le32(x) + Le32(y) + Le16(1) + Le16(24) + Le32(0) + Le32(0) + Le32(0) + Le32(0) + Le32(0) + Le32(0)
  }

  function BmpLayout(x: nat, comp: nat): Layout {
    Layout(comp, -1, 0, RowPadding(x))
  }

  method StbiWriteBmp(x: nat, y: nat, comp: nat, data: seq<byte>) returns (file: seq<byte>)
    requires 1 <= comp <= 4 && |data| == x * comp * y
    ensures file == BmpHeader(x, y) + WrittenRows(data, x * comp, y, BmpLayout(x, comp))
  {
    hide WrittenRows, BmpHeader;
    var f := new OutFile();
    f.Fwrite(BmpHeader(x, y));
    f.WritePixels(-1, -1, x, y, comp, data, 0, RowPadding(x));
    file := f.bytes;
  }

  function TgaAlpha(comp: nat): nat {
    if comp % 2 == 1 then 0 else 1
  }

  function TgaHeader(x: nat, y: nat, comp: nat): (h: seq<byte>)
    ensures |h| == 18
  {
    [0, 0, 2] + Le16(0) + Le16(0) + [0] + Le16(0) + Le16(0) + Le16(x) + Le16(y)
    + [24 + 8 * TgaAlpha(comp), 8 * TgaAlpha(comp)]
  }

  function TgaLayout(comp: nat): Layout {
    Layout(comp, -1, TgaAlpha(comp), 0)
  }

  method StbiWriteTga(x: nat, y: nat, comp: nat, data: seq<byte>) returns (file: seq<byte>)
    requires 1 <= comp <= 4 && |data| == x * comp * y
    ensures file == TgaHeader(x, y, comp) + WrittenRows(data, x * comp, y, TgaLayout(comp))
  {
    hide WrittenRows, TgaHeader;
    var f := new OutFile();
    f.Fwrite(TgaHeader(x, y, comp));
    f.WritePixels(-1, -1, x, y, comp, data, TgaAlpha(comp), 0);
    file := f.bytes;
  }

  /** In the order of the file: red first or last, alpha in front or behind. */
  lemma PixelOrders(r: byte, g: byte, b: byte, a: byte)
    ensures WrittenPixel([r, g, b], Layout(3, 1, 0, 0)) == [r, g, b]
            && WrittenPixel([r, g, b], Layout(3, -1, 0, 0)) == [b, g, r]
    ensures WrittenPixel([r, g, b, a], Layout(4, 1, -1, 0)) == [a, r, g, b]
    ensures WrittenPixel([r, g, b, a], Layout(4, -1, 1, 0)) == [b, g, r, a]
    ensures WrittenPixel([g, a], Layout(2, 1, -1, 0)) == [a, g, g, g]
            && WrittenPixel([g], Layout(1, 1, 0, 0)) == [g, g, g]
  {
  }

  /** Without alpha in the file an opaque pixel keeps its colour and a transparent one is pink. */
  lemma Background(r: byte, g: byte, b: byte)
    ensures WrittenPixel([r, g, b, 255], Layout(4, 1, 0, 0)) == [r, g, b]
    ensures WrittenPixel([r, g, b, 0], Layout(4, 1, 0, 0)) == [255, 0, 255]
  {
    hide Blend;
  }

  /** Downwards the rows go into the file as they are, upwards the last one first. */
  lemma RowOrders(a: seq<byte>, b: seq<byte>, w: nat)
    requires |a| == |b| == w
    ensures Directed(a + b, w, 2, -1) == a + b && Directed(a + b, w, 2, 1) == b + a
  {
    assert (a + b)[w..] == b && (a + b)[..w] == a;
    assert RowsReversed(a, w, 1) == a + [] by { assert a[w * 0..] == a && a[..w * 0] == []; }
    assert b + (a + []) == b + a;
  }
}
