/** What `stbi_write_tga` writes, `tga_load` reads back. */
module TgaRoundTrip {
  import opened Basics
  import opened Bytes
  import opened ImageReader
  import opened PixelConvert
  import opened ImageWriter
  import opened Scanlines
  import opened TgaFormat
  import opened TgaLoader

  /** Bytes of a pixel in the file. */
  function FileComp(comp: nat): (n: nat)
    ensures 3 <= n <= 4
  {
    3 + TgaAlpha(comp)
  }

  function FileFormat(comp: nat): (f: Format)
    ensures f.Valid()
  {
    Direct(FileComp(comp))
  }

  lemma PixelReads(d: seq<byte>)
    requires 1 <= |d| <= 4
    ensures var p := WrittenPixel(d, TgaLayout(|d|));
            |p| == FileComp(|d|) && Convert(Trans(p), |d|) == d
  {
    GreyIsItself(d[0]);
    hide Luminance, Blend;
    match |d|
    case 1 => assert Convert(Trans(WrittenPixel(d, Layout(1, -1, 0, 0))), 1) == d;
    case 2 => assert Convert(Trans(WrittenPixel(d, Layout(2, -1, 1, 0))), 2) == d;
    case 3 => assert Convert(Trans(WrittenPixel(d, Layout(3, -1, 0, 0))), 3) == d;
    case _ => assert Convert(Trans(WrittenPixel(d, Layout(4, -1, 1, 0))), 4) == d;
  }

  lemma {:induction false} RowReads(row: seq<byte>, rest: seq<byte>, comp: nat, x: nat, more: nat)
    requires 1 <= comp <= 4 && |row| == x * comp
    ensures Raw(WrittenRow(row, TgaLayout(comp)) + rest, FileFormat(comp), comp, x + more) ==
            row + Raw(rest, FileFormat(comp), comp, more)
    decreases x
  {
    hide WrittenPixel, WrittenRow, Convert, Trans, TgaAlpha, Raw, Taken, Dropped;
    if x == 0 {
      NoPixelsLeft(row, TgaLayout(comp), []);
      assert row == [] && WrittenRow(row, TgaLayout(comp)) == [] + WrittenRow(row, TgaLayout(comp)) == [];
      assert [] + rest == rest
             && [] + Raw(rest, FileFormat(comp), comp, more) == Raw(rest, FileFormat(comp), comp, more);
    } else {
      LastRow(comp, x);
      var d, others := row[..comp], WrittenRow(row[comp..], TgaLayout(comp)) + rest;
      RowReads(row[comp..], rest, comp, x - 1, more);
      PixelReads(d);
      var p := WrittenPixel(d, TgaLayout(comp));
      PixelsLeft(row, TgaLayout(comp), []);
      assert [] + WrittenRow(row, TgaLayout(comp)) == WrittenRow(row, TgaLayout(comp)) && [] + p == p;
      assert WrittenRow(row, TgaLayout(comp)) + rest == p + others;
      AfterKnown(p, others);
      RawFirst(p + others, FileFormat(comp), comp, x + more);
      assert row == d + row[comp..];
    }
  }

  /** The rows come back last row first. */
  lemma {:induction false} RowsRead(data: seq<byte>, comp: nat, x: nat, w: nat, y: nat)
    requires 1 <= comp <= 4 && w == x * comp && |data| == w * y
    ensures Raw(WrittenRows(data, w, y, TgaLayout(comp)), FileFormat(comp), comp, x * y) == RowsReversed(data, w, y)
    decreases y
  {
    hide WrittenRow, TgaAlpha, Raw;
    if y == 0 {
      RawNone([], FileFormat(comp), comp);
    } else {
      LastRow(w, y);
      LastRow(x, y);
      var last, init := data[w * (y - 1)..], data[..w * (y - 1)];
      RowsRead(init, comp, x, w, y - 1);
      var rest := WrittenRows(init, w, y - 1, TgaLayout(comp));
      RowReads(last, rest, comp, x, x * (y - 1));
      assert WrittenRow(last, TgaLayout(comp)) + Zeros(0) + rest == WrittenRow(last, TgaLayout(comp)) + rest;
    }
  }

  lemma HeaderReads(x: nat, y: nat, comp: nat, rest: seq<byte>)
    requires 1 <= x < 0x1_0000 && 1 <= y < 0x1_0000 && 1 <= comp <= 4
    ensures var s := TgaHeader(x, y, comp) + rest;
            && At(s, 0) == 0 && At(s, 1) == 0 && At(s, 2) == 2 && Le16At(s, 12) == x && Le16At(s, 14) == y
            && At(s, 16) == 8 * FileComp(comp) && At(s, 17) == 8 * TgaAlpha(comp) && Dropped(s, 18) == rest
  {
    var h := TgaHeader(x, y, comp);
    var s := h + rest;
    AfterKnown(h, rest);
    assert forall k :: 0 <= k < 18 ==> At(s, k) == h[k];
    assert h[12..14] == Le16(x) && h[14..16] == Le16(y);
    Le16Reads(x);
    Le16Reads(y);
  }

  lemma Le16Reads(x: nat)
    requires x < 0x1_0000
    ensures Word(Le16(x)[0], Le16(x)[1]) == x
  {
  }

  lemma SizeOverflows(x: nat, y: nat, comp: nat)
    requires comp >= 1
    ensures Overflows(x, y, comp) <==> x * comp * y >= INT_LIMIT
  {
    AreaTimes(x, y, comp);
  }

  /** For every image that fits the header, of any number of components; it is loaded as long
      as its bytes can be counted. */
  lemma FileReads(x: nat, y: nat, comp: nat, data: seq<byte>)
    requires 1 <= x < 0x1_0000 && 1 <= y < 0x1_0000 && 1 <= comp <= 4 && |data| == x * comp * y
    ensures TgaDecode(TgaHeader(x, y, comp) + WrittenRows(data, x * comp, y, TgaLayout(comp)), comp) ==
            if |data| < INT_LIMIT then Loaded(x, y, FileComp(comp), data) else TooLarge
  {
    hide TgaHeader, WrittenRows, Raw, Packets, RowsReversed, Le16At, At, Dropped, Overflows;
    var w, rows := x * comp, WrittenRows(data, x * comp, y, TgaLayout(comp));
    HeaderReads(x, y, comp, rows);
    SizeOverflows(x, y, comp);
    RowsRead(data, comp, x, w, y);
    ReversedTwice(data, w, y);
  }

  method RoundTrip(x: nat, y: nat, comp: nat, data: seq<byte>) returns (result: Outcome)
    requires 1 <= x < 0x1_0000 && 1 <= y < 0x1_0000 && 1 <= comp <= 4 && |data| == x * comp * y
    ensures result == if |data| < INT_LIMIT then Loaded(x, y, if comp % 2 == 1 then 3 else 4, data) else TooLarge
  {
    var file := StbiWriteTga(x, y, comp, data);
    var s := new Stbi(file);
    result := TgaLoad(s, comp);
    FileReads(x, y, comp, data);
  }
}
