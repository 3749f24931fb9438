/** BMP files of every depth, written from pixels. They load as those pixels. */
module BmpEncoding {
  import opened Basics
  import opened BmpFormat
  import opened BmpLoader
  import opened Bytes
  import opened Channels
  import opened ImageReader
  import opened PixelConvert
  import opened Powers
  import opened Scanlines

  // Pixels and their bytes

  datatype Colour = Colour(r: byte, g: byte, b: byte)

  /** A number in the palette; five bits a channel; or eight, with alpha or without. */
  datatype Pixel =
    | Index(i: nat)
    | Five(r: byte, g: byte, b: byte)
    | Eight(r: byte, g: byte, b: byte)
    | WithAlpha(r: byte, g: byte, b: byte, a: byte)

  datatype Kind = Nibbles(palette: seq<Colour>) | Octets(palette: seq<Colour>) | Words | Triples | Quads {
    function Depth(): nat {
      match this
      case Nibbles(_) => 4
      case Octets(_) => 8
      case Words => 16
      case Triples => 24
      case Quads => 32
    }

    function Palette(): seq<Colour> {
      if Nibbles? || Octets? then palette else []
    }

    predicate Valid() {
      Nibbles? || Octets? ==> 1 <= |palette| <= 256
    }
  }

  predicate Fits(k: Kind, p: Pixel) {
    match k
    case Nibbles(palette) => p.Index? && p.i < |palette| && p.i < 16
    case Octets(palette) => p.Index? && p.i < |palette| && p.i < 256
    case Words => p.Five? && p.r < 32 && p.g < 32 && p.b < 32
    case Triples => p.Eight?
    case Quads => p.WithAlpha?
  }

  predicate AllFit(k: Kind, row: seq<Pixel>) {
    forall i :: 0 <= i < |row| ==> Fits(k, row[i])
  }

  /** The pixel in memory: five bits are widened by repeating the upper ones. */
  function Meaning(k: Kind, p: Pixel, target: nat): (m: seq<byte>)
    requires Fits(k, p) && (target == 3 || target == 4)
    ensures |m| == target
  {
    match p
    case Index(i) => var c := k.palette[i]; if target == 4 then [c.r, c.g, c.b, 255] else [c.r, c.g, c.b]
    case Five(r, g, b) =>
      var c := [8 * r + r / 4, 8 * g + g / 4, 8 * b + b / 4];
      if target == 4 then c + [255] else c
    case Eight(r, g, b) => if target == 4 then [r, g, b, 255] else [r, g, b]
    case WithAlpha(r, g, b, a) => if target == 4 then [r, g, b, a] else [r, g, b]
  }

  /** Blue first, or in the lowest bits. */
  function PixelBytes(k: Kind, p: Pixel): (bytes: seq<byte>)
    requires Fits(k, p) && !k.Nibbles?
    ensures |bytes| == k.Depth() / 8
  {
    match p
    case Index(i) => [i]
    case Five(r, g, b) => var v := 1024 * r + 32 * g + b; [v % 256, v / 256]
    case Eight(r, g, b) => [b, g, r]
    case WithAlpha(r, g, b, a) => [b, g, r, a]
  }

  /** Pixels of four bits go two to a byte, the first one in the upper half. */
  function RowBytes(k: Kind, row: seq<Pixel>): seq<byte>
    requires AllFit(k, row)
  {
    if row == [] then []
    else if k.Nibbles? then
      [16 * row[0].i + if |row| > 1 then row[1].i else 0] + if |row| > 2 then RowBytes(k, row[2..]) else []
    else PixelBytes(k, row[0]) + RowBytes(k, row[1..])
  }

  function RowMeaning(k: Kind, row: seq<Pixel>, target: nat): seq<byte>
    requires AllFit(k, row) && (target == 3 || target == 4)
  {
    if row == [] then [] else Meaning(k, row[0], target) + RowMeaning(k, row[1..], target)
  }

  function Filler(n: nat): (bytes: seq<byte>)
    ensures |bytes| == n
  {
    seq(n, _ => 0)
  }

  predicate Picture(k: Kind, rows: seq<seq<Pixel>>, x: nat) {
    forall j :: 0 <= j < |rows| ==> |rows[j]| == x && AllFit(k, rows[j])
  }

  /** Every row is filled up to a multiple of four bytes. */
  function RowsBytes(k: Kind, rows: seq<seq<Pixel>>, x: nat): seq<byte>
    requires Picture(k, rows, x)
  {
    if rows == [] then []
    else
      var row := RowBytes(k, rows[0]);
      row + Filler((4 - |row| % 4) % 4) + RowsBytes(k, rows[1..], x)
  }

  function RowsMeaning(k: Kind, rows: seq<seq<Pixel>>, x: nat, target: nat): seq<byte>
    requires Picture(k, rows, x) && (target == 3 || target == 4)
  {
    if rows == [] then [] else RowMeaning(k, rows[0], target) + RowsMeaning(k, rows[1..], x, target)
  }

  // How the program sees them

  function Colours(palette: seq<Colour>): (p: seq<seq<byte>>)
    ensures |p| == |palette| && forall i :: 0 <= i < |p| ==> |p[i]| == 3
  {
    seq(|palette|, i requires 0 <= i < |palette| => [palette[i].r, palette[i].g, palette[i].b])
  }

  function FormatOf(k: Kind): (f: Format)
    ensures f.Valid() && (f.Indexed? <==> k.Nibbles? || k.Octets?)
  {
    match k
    case Nibbles(palette) => Indexed(4, Colours(palette))
    case Octets(palette) => Indexed(8, Colours(palette))
    case Words => Masked(2, Masks(0x7c00, 0x3e0, 0x1f, 0))
    case Triples => Direct(3)
    case Quads => Masked(4, Masks(0xff_0000, 0xff00, 0xff, 0xff00_0000))
  }

  lemma FiveMasks()
    ensures Ones(14, 5) == 0x7c00 && Ones(9, 5) == 0x3e0 && Ones(4, 5) == 0x1f && BitCount(0x7c00) == 5
  {
    hide Pow2, BitCount;
    EchoPowers();
    PowersBelow();
    BitCountOfOnes(14, 5);
  }

  lemma EightMasks()
    ensures Ones(23, 8) == 0xff_0000 && Ones(15, 8) == 0xff00 && Ones(7, 8) == 0xff && Ones(31, 8) == 0xff00_0000
    ensures BitCount(0xff_0000) == 8
  {
    hide Pow2, BitCount;
    PowersBelow();
    BitCountOfOnes(23, 8);
  }

  lemma FiveReads(p: Pixel, target: nat)
    requires Fits(Words, p) && (target == 3 || target == 4)
    ensures MaskedPixel(1024 * p.r + 32 * p.g + p.b, Masks(0x7c00, 0x3e0, 0x1f, 0), target) == Meaning(Words, p, target)
  {
    hide Channel, BitCount, Ones, Bits;
    FiveMasks();
    var v := 1024 * p.r + 32 * p.g + p.b;
    FiveBits(v, 14);
    FiveBits(v, 9);
    FiveBits(v, 4);
    FiveParts(p.r, p.g, p.b);
  }

  lemma FiveParts(r: nat, g: nat, b: nat)
    requires r < 32 && g < 32 && b < 32
    ensures var v := 1024 * r + 32 * g + b; Bits(v, 10, 5) == r && Bits(v, 5, 5) == g && Bits(v, 0, 5) == b
  {
    hide Pow2;
    EchoPowers();
    PowersBelow();
    DivModUnique(1024 * r + 32 * g + b, 32, 32 * r + g, b);
    DivModUnique(1024 * r + 32 * g + b, 1024, r, 32 * g + b);
  }

  lemma QuadReads(p: Pixel, target: nat)
    requires Fits(Quads, p) && (target == 3 || target == 4)
    ensures MaskedPixel(p.b + 0x100 * p.g + 0x1_0000 * (p.r + 0x100 * p.a),
                        Masks(0xff_0000, 0xff00, 0xff, 0xff00_0000), target)
            == Meaning(Quads, p, target)
  {
    hide Channel, BitCount, Ones, Bits;
    EightMasks();
    var v := p.b + 0x100 * p.g + 0x1_0000 * (p.r + 0x100 * p.a);
    EightBits(v, 31);
    EightBits(v, 23);
    EightBits(v, 15);
    EightBits(v, 7);
    EightParts(p.r, p.g, p.b, p.a);
  }

  lemma EightParts(r: byte, g: byte, b: byte, a: byte)
    ensures var v := b + 0x100 * g + 0x1_0000 * (r + 0x100 * a);
            Bits(v, 24, 8) == a && Bits(v, 16, 8) == r && Bits(v, 8, 8) == g && Bits(v, 0, 8) == b
  {
    hide Pow2, Bits;
    PowersBelow();
    var v: nat := b + 0x100 * g + 0x1_0000 * (r + 0x100 * a);
    ByteIs(v, 0, g + 0x100 * (r + 0x100 * a), b, 0);
    ByteIs(v, 8, r + 0x100 * a, g, b);
    ByteIs(v, 16, a, r, b + 0x100 * g);
    ByteIs(v, 24, 0, a, b + 0x100 * g + 0x1_0000 * r);
  }

  lemma ByteIs(v: nat, k: nat, high: nat, middle: byte, low: nat)
    requires low < Pow2(k) && v == (high * 0x100 + middle) * Pow2(k) + low
    ensures Bits(v, k, 8) == middle
  {
    hide Pow2;
    PowersBelow();
    DivModUnique(v, Pow2(k), high * 0x100 + middle, low);
    DivModUnique(high * 0x100 + middle, 0x100, high, middle);
  }

  lemma WordReads(v: nat, rest: seq<byte>)
    requires v < 0x1_0000
    ensures Le16At([v % 256, v / 256] + rest, 0) == v
  {
  }

  lemma QuadWordReads(b: byte, g: byte, r: byte, a: byte, rest: seq<byte>)
    ensures Le32At([b, g, r, a] + rest, 0) == b + 0x100 * g + 0x1_0000 * (r + 0x100 * a)
  {
  }

  lemma PixelReads(k: Kind, p: Pixel, rest: seq<byte>, target: nat)
    requires Fits(k, p) && !k.Nibbles? && (target == 3 || target == 4)
    ensures var f, s := FormatOf(k), PixelBytes(k, p) + rest;
            PixelAt(f, s, target) == Meaning(k, p, target) && Dropped(s, f.Size()) == rest
    ensures k.Octets? ==> At(PixelBytes(k, p) + rest, 0) < |k.palette|
  {
    hide MaskedPixel, Dropped, Le16At, Le32At;
    AfterKnown(PixelBytes(k, p), rest);
    match k
    case Octets(_) => OctetReads(k, p, rest, target);
    case Words =>
      WordReads(1024 * p.r + 32 * p.g + p.b, rest);
      FiveReads(p, target);
    case Triples => TripleReads(k, p, rest, target);
    case Quads =>
      QuadWordReads(p.b, p.g, p.r, p.a, rest);
      QuadReads(p, target);
  }

  lemma OctetReads(k: Kind, p: Pixel, rest: seq<byte>, target: nat)
    requires Fits(k, p) && k.Octets? && (target == 3 || target == 4)
    ensures PixelAt(FormatOf(k), PixelBytes(k, p) + rest, target) == Meaning(k, p, target)
    ensures At(PixelBytes(k, p) + rest, 0) == p.i < |k.palette|
  {
  }

  lemma TripleReads(k: Kind, p: Pixel, rest: seq<byte>, target: nat)
    requires Fits(k, p) && k.Triples? && (target == 3 || target == 4)
    ensures PixelAt(FormatOf(k), PixelBytes(k, p) + rest, target) == Meaning(k, p, target)
  {
    var s := PixelBytes(k, p) + rest;
    assert At(s, 0) == p.b && At(s, 1) == p.g && At(s, 2) == p.r;
  }

  // Rows

  lemma {:induction false} RowReads(k: Kind, row: seq<Pixel>, rest: seq<byte>, target: nat)
    requires AllFit(k, row) && !k.Nibbles? && (target == 3 || target == 4)
    ensures var f, s := FormatOf(k), RowBytes(k, row) + rest;
            && Line(f, s, target, |row|) == RowMeaning(k, row, target)
            && |RowBytes(k, row)| == f.LineSize(|row|)
            && (f.Indexed? ==> LineKnown(f, s, |row|))
    decreases |row|
  {
    hide PixelAt, PixelBytes, Meaning, Dropped, At, Fits;
    var f := FormatOf(k);
    if row == [] {
      assert f.LineSize(0) == 0;
    } else {
      var first, others := PixelBytes(k, row[0]), RowBytes(k, row[1..]);
      Regroup(first, others, rest);
      PixelReads(k, row[0], others + rest, target);
      RowReads(k, row[1..], rest, target);
      Distributes(|row| - 1, 1, f.Size());
      if f.Indexed? {
        assert At(first + (others + rest), 0) < |f.palette|;
      }
    }
  }

  lemma NibbleParts(u: nat, v: nat)
    requires u < 16 && v < 16
    ensures (16 * u + v) / 16 == u && (16 * u + v) % 16 == v
  {
  }

  lemma ColourIs(k: Kind, p: Pixel, target: nat)
    requires Fits(k, p) && p.Index? && (target == 3 || target == 4)
    ensures BmpFormat.Colour(FormatOf(k), p.i, target) == Meaning(k, p, target)
  {
  }

  lemma PairFits(k: Kind, row: seq<Pixel>)
    requires AllFit(k, row) && k.Nibbles? && |row| > 1
    ensures Fits(k, row[0]) && row[0].Index? && row[0].i < 16 && Fits(k, row[1]) && row[1].Index? && row[1].i < 16
    ensures AllFit(k, row[2..])
    ensures var f := FormatOf(k);
            && f.Valid() && f.Indexed? && f.bits == 4 && row[0].i < |f.palette| && row[1].i < |f.palette|
            && f.LineSize(|row|) == 1 + f.LineSize(|row| - 2)
  {
  }

  /** Two pixels of a row are in its first byte. */
  lemma PairInRow(k: Kind, row: seq<Pixel>, target: nat)
    requires AllFit(k, row) && k.Nibbles? && |row| > 1 && (target == 3 || target == 4)
    ensures RowBytes(k, row) == [16 * row[0].i + row[1].i] + RowBytes(k, row[2..])
    ensures RowMeaning(k, row, target)
            == Meaning(k, row[0], target) + (Meaning(k, row[1], target) + RowMeaning(k, row[2..], target))
  {
    hide Meaning;
    assert row[1..][0] == row[1] && row[1..][1..] == row[2..];
    if |row| == 2 {
      assert row[2..] == [];
    }
  }

  lemma PairInLine(f: Format, u: nat, v: nat, rest: seq<byte>, target: nat, x: nat)
    requires f.Valid() && f.Indexed? && f.bits == 4 && u < 16 && v < 16 && (target == 3 || target == 4)
    ensures var s := [16 * u + v] + rest;
            && Line(f, s, target, x + 2)
               == BmpFormat.Colour(f, u, target) + (BmpFormat.Colour(f, v, target) + Line(f, rest, target, x))
            && (LineKnown(f, s, x + 2) <==> u < |f.palette| && v < |f.palette| && LineKnown(f, rest, x))
  {
    hide BmpFormat.Colour, Dropped;
    NibbleParts(u, v);
    AfterKnown([16 * u + v], rest);
  }

  lemma {:induction false} NibblesRead(k: Kind, row: seq<Pixel>, rest: seq<byte>, target: nat)
    requires AllFit(k, row) && k.Nibbles? && (target == 3 || target == 4)
    ensures var f, s := FormatOf(k), RowBytes(k, row) + rest;
            && Line(f, s, target, |row|) == RowMeaning(k, row, target)
            && |RowBytes(k, row)| == f.LineSize(|row|)
            && LineKnown(f, s, |row|)
    decreases |row|
  {
    hide BmpFormat.Colour, Meaning, Line, LineKnown, RowBytes, RowMeaning, FormatOf, AllFit, Format.Valid,
         Format.LineSize;
    if |row| <= 1 {
      LastNibble(k, row, rest, target);
    } else {
      PairFits(k, row);
      var head, others := [16 * row[0].i + row[1].i], RowBytes(k, row[2..]);
      PairInRow(k, row, target);
      Regroup(head, others, rest);
      ColourIs(k, row[0], target);
      ColourIs(k, row[1], target);
      PairInLine(FormatOf(k), row[0].i, row[1].i, others + rest, target, |row| - 2);
      NibblesRead(k, row[2..], rest, target);
    }
  }

  lemma LastNibble(k: Kind, row: seq<Pixel>, rest: seq<byte>, target: nat)
    requires AllFit(k, row) && k.Nibbles? && |row| <= 1 && (target == 3 || target == 4)
    ensures var f, s := FormatOf(k), RowBytes(k, row) + rest;
            && Line(f, s, target, |row|) == RowMeaning(k, row, target)
            && |RowBytes(k, row)| == f.LineSize(|row|)
            && LineKnown(f, s, |row|)
  {
    hide BmpFormat.Colour, Meaning;
    if |row| == 1 {
      assert row[1..] == [];
      NibbleParts(row[0].i, 0);
      ColourIs(k, row[0], target);
      assert Meaning(k, row[0], target) + [] == Meaning(k, row[0], target);
    }
  }

  lemma LineReads(k: Kind, row: seq<Pixel>, rest: seq<byte>, target: nat)
    requires AllFit(k, row) && (target == 3 || target == 4)
    ensures var f, s := FormatOf(k), RowBytes(k, row) + rest;
            && Line(f, s, target, |row|) == RowMeaning(k, row, target)
            && |RowBytes(k, row)| == f.LineSize(|row|)
            && (f.Indexed? ==> LineKnown(f, s, |row|))
  {
    hide Line, LineKnown, RowBytes, RowMeaning;
    if k.Nibbles? {
      NibblesRead(k, row, rest, target);
    } else {
      RowReads(k, row, rest, target);
    }
  }

  /** A row with what fills it up. */
  function FilledRow(k: Kind, row: seq<Pixel>): seq<byte>
    requires AllFit(k, row)
  {
    var bytes := RowBytes(k, row);
    bytes + Filler((4 - |bytes| % 4) % 4)
  }

  lemma FilledLineReads(k: Kind, row: seq<Pixel>, others: seq<byte>, target: nat)
    requires AllFit(k, row) && (target == 3 || target == 4)
    ensures var f, s := FormatOf(k), FilledRow(k, row) + others;
            && Line(f, s, target, |row|) == RowMeaning(k, row, target)
            && Dropped(s, f.LineSize(|row|) + f.Padding(|row|)) == others
            && (f.Indexed? ==> LineKnown(f, s, |row|))
  {
    hide Line, LineKnown, RowBytes, RowMeaning, Dropped, FormatOf, AllFit, Format.Valid, Format.LineSize;
    var bytes := RowBytes(k, row);
    var filler := Filler((4 - |bytes| % 4) % 4);
    LineReads(k, row, filler + others, target);
    Regroup(bytes, filler, others);
    AfterKnown(bytes + filler, others);
  }

  lemma RowsFirst(k: Kind, rows: seq<seq<Pixel>>, x: nat, target: nat)
    requires Picture(k, rows, x) && rows != [] && (target == 3 || target == 4)
    ensures |rows[0]| == x && AllFit(k, rows[0]) && Picture(k, rows[1..], x)
    ensures RowsBytes(k, rows, x) == FilledRow(k, rows[0]) + RowsBytes(k, rows[1..], x)
    ensures RowsMeaning(k, rows, x, target) == RowMeaning(k, rows[0], target) + RowsMeaning(k, rows[1..], x, target)
  {
    hide RowBytes, RowMeaning, AllFit;
  }

  lemma {:induction false} RowsRead(k: Kind, rows: seq<seq<Pixel>>, x: nat, rest: seq<byte>, target: nat)
    requires Picture(k, rows, x) && (target == 3 || target == 4)
    ensures var f, s := FormatOf(k), RowsBytes(k, rows, x) + rest;
            && Lines(f, s, target, x, |rows|) == RowsMeaning(k, rows, x, target)
            && (f.Indexed? ==> LinesKnown(f, s, x, |rows|))
    decreases |rows|
  {
    hide Line, LineKnown, Lines, LinesKnown, RowMeaning, RowsBytes, RowsMeaning, FilledRow, Dropped, FormatOf, AllFit,
         Picture;
    hide Format.Valid, Format.LineSize, Format.Padding;
    var f, s := FormatOf(k), RowsBytes(k, rows, x) + rest;
    if rows == [] {
      LinesNone(f, s, target, x);
      NothingMeant(k, rows, x, target);
    } else {
      RowsFirst(k, rows, x, target);
      var others := RowsBytes(k, rows[1..], x) + rest;
      RowsRead(k, rows[1..], x, rest, target);
      FilledLineReads(k, rows[0], others, target);
      Regroup(FilledRow(k, rows[0]), RowsBytes(k, rows[1..], x), rest);
      LinesFirst(f, s, target, x, |rows|);
    }
  }

  lemma NothingMeant(k: Kind, rows: seq<seq<Pixel>>, x: nat, target: nat)
    requires Picture(k, rows, x) && rows == [] && (target == 3 || target == 4)
    ensures RowsMeaning(k, rows, x, target) == []
  {
  }

  // The picture, top row first and with the components asked for

  function TopFirst(rows: seq<seq<Pixel>>): (r: seq<seq<Pixel>>)
    ensures |r| == |rows|
  {
    if rows == [] then [] else [rows[|rows| - 1]] + TopFirst(rows[..|rows| - 1])
  }

  lemma {:induction false} TopFirstPicture(k: Kind, rows: seq<seq<Pixel>>, x: nat)
    requires Picture(k, rows, x)
    ensures Picture(k, TopFirst(rows), x)
    decreases |rows|
  {
    hide AllFit;
    if rows != [] {
      TopFirstPicture(k, rows[..|rows| - 1], x);
    }
  }

  lemma RowMeaningLength(k: Kind, row: seq<Pixel>, target: nat)
    requires AllFit(k, row) && (target == 3 || target == 4)
    ensures |RowMeaning(k, row, target)| == BmpFormat.RowBytes(|row|, target)
  {
    hide Line, LineKnown, RowBytes, RowMeaning, FormatOf, BmpFormat.RowBytes;
    LineReads(k, row, [], target);
    LineLength(FormatOf(k), RowBytes(k, row) + [], target, |row|);
  }

  lemma {:induction false} MeaningAppends(k: Kind, rows: seq<seq<Pixel>>, row: seq<Pixel>, x: nat, target: nat)
    requires Picture(k, rows, x) && |row| == x && AllFit(k, row) && (target == 3 || target == 4)
    ensures Picture(k, rows + [row], x)
    ensures RowsMeaning(k, rows + [row], x, target) == RowsMeaning(k, rows, x, target) + RowMeaning(k, row, target)
    decreases |rows|
  {
    hide AllFit, RowMeaning;
    if rows == [] {
      assert [] + [row] == [row] && [row][1..] == [];
      assert RowMeaning(k, row, target) + [] == [] + RowMeaning(k, row, target);
    } else {
      MeaningAppends(k, rows[1..], row, x, target);
      assert (rows + [row])[1..] == rows[1..] + [row];
      Regroup(RowMeaning(k, rows[0], target), RowsMeaning(k, rows[1..], x, target), RowMeaning(k, row, target));
    }
  }

  /** Turning the bytes upside down is putting the rows in the other order. */
  lemma {:induction false} TurnedOver(k: Kind, rows: seq<seq<Pixel>>, x: nat, target: nat)
    requires Picture(k, rows, x) && (target == 3 || target == 4)
    ensures Picture(k, TopFirst(rows), x)
    ensures var w := BmpFormat.RowBytes(x, target);
            |RowsMeaning(k, rows, x, target)| == w * |rows| &&
            RowsReversed(RowsMeaning(k, rows, x, target), w, |rows|) == RowsMeaning(k, TopFirst(rows), x, target)
    decreases |rows|
  {
    hide AllFit, RowMeaning, RowsMeaning, RowsReversed, BmpFormat.RowBytes, TopFirst, Picture;
    TopFirstPicture(k, rows, x);
    var w := BmpFormat.RowBytes(x, target);
    if rows == [] {
      NothingMeant(k, rows, x, target);
      NothingMeant(k, TopFirst(rows), x, target);
      NothingReversed(w);
    } else {
      var init, last := rows[..|rows| - 1], rows[|rows| - 1];
      LastGoesFirst(k, rows, x);
      assert rows == init + [last];
      TurnedOver(k, init, x, target);
      MeaningAppends(k, init, last, x, target);
      RowMeaningLength(k, last, target);
      LastRow(w, |rows|);
      RowsFirst(k, TopFirst(rows), x, target);
      LastOfRows(RowsMeaning(k, init, x, target), RowMeaning(k, last, target), w, |rows|);
    }
  }

  lemma NothingReversed(w: nat)
    ensures w * 0 == 0 && RowsReversed([], w, 0) == []
  {
  }

  lemma LastGoesFirst(k: Kind, rows: seq<seq<Pixel>>, x: nat)
    requires Picture(k, rows, x) && rows != []
    ensures var init, last := rows[..|rows| - 1], rows[|rows| - 1];
            && Picture(k, init, x) && |last| == x && AllFit(k, last)
            && TopFirst(rows)[0] == last && TopFirst(rows)[1..] == TopFirst(init)
  {
    hide AllFit;
  }

  lemma LastOfRows(a: seq<byte>, b: seq<byte>, w: nat, h: nat)
    requires h > 0 && |a| == w * (h - 1) && |b| == w && |a + b| == w * h
    ensures RowsReversed(a + b, w, h) == b + RowsReversed(a, w, h - 1)
  {
    assert (a + b)[w * (h - 1)..] == b && (a + b)[..w * (h - 1)] == a;
  }

  /** A pixel with one component, its luminance, or with two, that and its alpha. */
  function Reduced(k: Kind, p: Pixel, req: nat): (m: seq<byte>)
    requires Fits(k, p) && 1 <= req <= 2
    ensures |m| == req
  {
    var c := Meaning(k, p, 4);
    var luma := Luminance(c[0], c[1], c[2]);
    if req == 1 then [luma] else [luma, c[3]]
  }

  function RowReduced(k: Kind, row: seq<Pixel>, req: nat): seq<byte>
    requires AllFit(k, row) && 1 <= req <= 2
  {
    if row == [] then [] else Reduced(k, row[0], req) + RowReduced(k, row[1..], req)
  }

  function RowsReduced(k: Kind, rows: seq<seq<Pixel>>, x: nat, req: nat): seq<byte>
    requires Picture(k, rows, x) && 1 <= req <= 2
  {
    if rows == [] then [] else RowReduced(k, rows[0], req) + RowsReduced(k, rows[1..], x, req)
  }

  /** The components of a file. */
  function Natural(k: Kind): (n: nat)
    ensures n == 3 || n == 4
  {
    if k.Quads? then 4 else 3
  }

  lemma PixelReduces(k: Kind, p: Pixel, req: nat, rest: seq<byte>)
    requires Fits(k, p) && 1 <= req <= 2
    ensures Converted(Meaning(k, p, Natural(k)) + rest, Natural(k), req)
            == Reduced(k, p, req) + Converted(rest, Natural(k), req)
  {
    var m := Meaning(k, p, Natural(k));
    assert (m + rest)[..Natural(k)] == m && (m + rest)[Natural(k)..] == rest;
    assert !k.Quads? ==> m + [255] == Meaning(k, p, 4);
    hide Meaning;
  }

  lemma {:induction false} RowReduces(k: Kind, row: seq<Pixel>, req: nat, rest: seq<byte>)
    requires AllFit(k, row) && 1 <= req <= 2
    ensures Converted(RowMeaning(k, row, Natural(k)) + rest, Natural(k), req)
            == RowReduced(k, row, req) + Converted(rest, Natural(k), req)
    decreases |row|
  {
    hide Meaning, Reduced, Converted, Fits, Natural;
    if row == [] {
      assert [] + rest == rest && [] + Converted(rest, Natural(k), req) == Converted(rest, Natural(k), req);
    } else {
      RowReduces(k, row[1..], req, rest);
      Regroup(Meaning(k, row[0], Natural(k)), RowMeaning(k, row[1..], Natural(k)), rest);
      PixelReduces(k, row[0], req, RowMeaning(k, row[1..], Natural(k)) + rest);
      Regroup(Reduced(k, row[0], req), RowReduced(k, row[1..], req), Converted(rest, Natural(k), req));
    }
  }

  lemma {:induction false} RowsReduce(k: Kind, rows: seq<seq<Pixel>>, x: nat, req: nat)
    requires Picture(k, rows, x) && 1 <= req <= 2
    ensures Converted(RowsMeaning(k, rows, x, Natural(k)), Natural(k), req) == RowsReduced(k, rows, x, req)
    decreases |rows|
  {
    hide RowMeaning, RowReduced, Converted, AllFit, Natural;
    if rows == [] {
      ConvertedNone([], Natural(k), req);
    } else {
      RowsReduce(k, rows[1..], x, req);
      RowReduces(k, rows[0], req, RowsMeaning(k, rows[1..], x, Natural(k)));
    }
  }

  // Files

  function Two(v: nat): (bytes: seq<byte>)
    requires v < 0x1_0000
    ensures |bytes| == 2
  {
    [v % 256, v / 256]
  }

  function Four(v: nat): (bytes: seq<byte>)
    requires v < 0x1_0000_0000
    ensures |bytes| == 4
  {
    Two(v % 0x1_0000) + Two(v / 0x1_0000)
  }

  lemma FourReads(v: nat, rest: seq<byte>)
    requires v < 0x1_0000_0000
    ensures Le32At(Four(v) + rest, 0) == v
  {
    var low, high := v % 0x1_0000, v / 0x1_0000;
    assert Four(v) + rest == Two(low) + (Two(high) + rest);
    WordReads(low, Two(high) + rest);
    WordReads(high, rest);
    assert At(Four(v) + rest, 2) == At(Two(high) + rest, 0) && At(Four(v) + rest, 3) == At(Two(high) + rest, 1);
  }

  /** The rows from the top one on. */
  function Upright(rows: seq<seq<Pixel>>, topDown: bool): seq<seq<Pixel>> {
    if topDown then rows else TopFirst(rows)
  }

  lemma UprightPicture(k: Kind, rows: seq<seq<Pixel>>, x: nat, topDown: bool)
    requires Picture(k, rows, x)
    ensures Picture(k, Upright(rows, topDown), x)
  {
    TopFirstPicture(k, rows, x);
  }

  /** The image is not counted in a signed word. */
  predicate Large(x: nat, target: nat, y: nat) {
    x * target * y >= INT_LIMIT
  }

  lemma LargeIs(x: nat, target: nat, y: nat)
    ensures Large(x, target, y) <==> BmpFormat.Overflows(x, target, y)
  {
  }

  /** What the loader makes of the picture. */
  function Expected(k: Kind, rows: seq<seq<Pixel>>, x: nat, topDown: bool, reqComp: nat): Outcome
    requires k.Valid() && Picture(k, rows, x) && reqComp <= 4
  {
    var target := if reqComp >= 3 then reqComp else Natural(k);
    UprightPicture(k, rows, x, topDown);
    var upright := Upright(rows, topDown);
    if Large(x, target, |rows|) then TooLarge
    else
      Loaded(x, |rows|, target,
             if reqComp == 1 || reqComp == 2 then RowsReduced(k, upright, x, reqComp)
               else RowsMeaning(k, upright, x, target))
  }

  /** Where the header and the format agree with the kind, the image is the picture. */
  lemma ImageLoads(k: Kind, rows: seq<seq<Pixel>>, x: nat, topDown: bool, reqComp: nat, file: seq<byte>,
                   rest: seq<byte>)
    requires k.Valid() && Picture(k, rows, x) && reqComp <= 4 && MasksOf(file).Masks?
    requires Width(file) == x && Height(file) == (if topDown then -|rows| else |rows|)
    requires MasksOf(file).a != 0 <==> k.Quads?
    ensures Image(file, FormatOf(k), RowsBytes(k, rows, x) + rest, reqComp) == Expected(k, rows, x, topDown, reqComp)
  {
    hide Lines, LinesKnown, RowsReversed, RowsMeaning, RowsReduced, RowsBytes, Converted, FormatOf, MasksOf, TopFirst,
         Picture, Upright, Large, BmpFormat.Overflows, BmpFormat.RowBytes;
    var target := if reqComp >= 3 then reqComp else Natural(k);
    LargeIs(x, target, |rows|);
    RowsRead(k, rows, x, rest, target);
    LinesUpright(k, rows, x, topDown, target);
    UprightPicture(k, rows, x, topDown);
    if reqComp == 1 || reqComp == 2 {
      RowsReduce(k, Upright(rows, topDown), x, reqComp);
    }
  }

  /** The lines that were read are turned over if the bottom row comes first. */
  lemma LinesUpright(k: Kind, rows: seq<seq<Pixel>>, x: nat, topDown: bool, target: nat)
    requires Picture(k, rows, x) && (target == 3 || target == 4)
    ensures Picture(k, Upright(rows, topDown), x)
    ensures var lines, w := RowsMeaning(k, rows, x, target), BmpFormat.RowBytes(x, target);
            |lines| == w * |rows| &&
            (if (if topDown then -|rows| else |rows|) > 0 then RowsReversed(lines, w, |rows|) else lines)
            == RowsMeaning(k, Upright(rows, topDown), x, target)
  {
    hide RowsReversed, RowsMeaning, TopFirst, Picture, BmpFormat.RowBytes;
    TurnedOver(k, rows, x, target);
    if rows == [] {
      NothingMeant(k, rows, x, target);
      NothingMeant(k, TopFirst(rows), x, target);
    }
  }

  predicate KnownSize(hsz: nat) {
    hsz == 40 || hsz == 56 || hsz == 108
  }

  /** A header of 40, 56 or 108 bytes behind that of the file. Its size, its resolutions and the
      like may say anything. */
  function Header(hsz: nat, depth: nat, x: nat, height: nat, offset: nat, compression: nat, size: seq<byte>,
                  more: seq<byte>): (h: seq<byte>)
    requires KnownSize(hsz) && |more| == hsz - 20
    requires depth < 256 && x < 0x1_0000_0000 && height < 0x1_0000_0000 && offset < 0x1_0000_0000
    requires compression < 256 && |size| == 4
    ensures |h| == 14 + hsz
  {
    [0x42, 0x4D] + size + [0, 0, 0, 0]
    + (Four(offset) + (Four(hsz) + (Four(x) + (Four(height) + ([1, 0, depth, 0, compression, 0, 0, 0] + more)))))
  }

  lemma HeaderFields(hsz: nat, depth: nat, x: nat, height: nat, offset: nat, compression: nat, size: seq<byte>,
                     more: seq<byte>, rest: seq<byte>)
    requires KnownSize(hsz) && |more| == hsz - 20
    requires depth < 256 && x < 0x1_0000_0000 && height < 0x1_0000_0000 && offset < 0x1_0000_0000
    requires compression < 256 && |size| == 4
    ensures var s := Header(hsz, depth, x, height, offset, compression, size, more) + rest;
            && At(s, 0) == 0x42 && At(s, 1) == 0x4D && Le32At(s, 10) == offset && Le32At(s, 14) == hsz
            && Le32At(s, 18) == x && Le32At(s, 22) == height
            && Le16At(s, 26) == 1 && Le16At(s, 28) == depth && Le32At(s, 30) == compression
            && Dropped(s, 34) == more + rest && Dropped(s, 14 + hsz) == rest
  {
    hide Four, Le32At, Le16At, Dropped, At;
    var head, known := [0x42, 0x4D] + size + [0, 0, 0, 0], [1, 0, depth, 0, compression, 0, 0, 0];
    var end, tail := known + more, known + (more + rest);
    var s := Header(hsz, depth, x, height, offset, compression, size, more) + rest;
    Regroup(head, Four(offset) + (Four(hsz) + (Four(x) + (Four(height) + end))), rest);
    Regroup(Four(offset), Four(hsz) + (Four(x) + (Four(height) + end)), rest);
    Regroup(Four(hsz), Four(x) + (Four(height) + end), rest);
    Regroup(Four(x), Four(height) + end, rest);
    Regroup(Four(height), end, rest);
    Regroup(known, more, rest);
    AfterKnown(head, Four(offset) + (Four(hsz) + (Four(x) + (Four(height) + tail))));
    FieldReads(s, 10, offset, Four(hsz) + (Four(x) + (Four(height) + tail)));
    FieldReads(s, 14, hsz, Four(x) + (Four(height) + tail));
    FieldReads(s, 18, x, Four(height) + tail);
    FieldReads(s, 22, height, tail);
    TailReads(s, depth, compression, more + rest);
    MagicReads(size, Four(offset) + (Four(hsz) + (Four(x) + (Four(height) + tail))));
    AfterKnown(Header(hsz, depth, x, height, offset, compression, size, more), rest);
  }

  lemma FieldReads(s: seq<byte>, k: nat, v: nat, rest: seq<byte>)
    requires v < 0x1_0000_0000 && Dropped(s, k) == Four(v) + rest
    ensures Le32At(s, k) == v && Dropped(s, k + 4) == rest
  {
    hide Four, Le32At;
    FourReads(v, rest);
    AfterKnown(Four(v), rest);
    DroppedTwice(s, k, 4);
    Le32After(s, k);
  }

  lemma MagicReads(size: seq<byte>, rest: seq<byte>)
    ensures var s := [0x42, 0x4D] + size + [0, 0, 0, 0] + rest; At(s, 0) == 0x42 && At(s, 1) == 0x4D
  {
  }

  lemma TailReads(s: seq<byte>, depth: nat, compression: nat, more: seq<byte>)
    requires depth < 256 && compression < 256
    requires Dropped(s, 26) == [1, 0, depth, 0, compression, 0, 0, 0] + more
    ensures Le16At(s, 26) == 1 && Le16At(s, 28) == depth && Le32At(s, 30) == compression && Dropped(s, 34) == more
  {
    DroppedTwice(s, 26, 8);
    AfterKnown([1, 0, depth, 0, compression, 0, 0, 0], more);
    forall i: nat | i < 8
      ensures At(s, 26 + i) == At(Dropped(s, 26), i)
    {
      DroppedTwice(s, 26, i);
    }
  }

  /** An entry is blue, green, red and a byte that says nothing. */
  function PaletteBytes(palette: seq<Colour>, entry: nat): (bytes: seq<byte>)
    requires entry == 3 || entry == 4
    ensures |bytes| == entry * |palette|
  {
    if palette == [] then []
    else
      var c := palette[0];
      [c.b, c.g, c.r] + (if entry == 4 then [0] else []) + PaletteBytes(palette[1..], entry)
  }

  lemma {:induction false} ColourReads(palette: seq<Colour>, entry: nat, rest: seq<byte>, i: nat)
    requires (entry == 3 || entry == 4) && i < |palette|
    ensures var s := PaletteBytes(palette, entry) + rest;
            At(s, entry * i) == palette[i].b && At(s, entry * i + 1) == palette[i].g
              && At(s, entry * i + 2) == palette[i].r
    decreases i
  {
    var c := palette[0];
    var first := [c.b, c.g, c.r] + if entry == 4 then [0] else [];
    var others := PaletteBytes(palette[1..], entry) + rest;
    Regroup(first, PaletteBytes(palette[1..], entry), rest);
    if i > 0 {
      ColourReads(palette[1..], entry, rest, i - 1);
      Distributes(1, i - 1, entry);
      EntryFurther(first, others, entry * (i - 1));
    }
  }

  lemma EntryFurther(first: seq<byte>, others: seq<byte>, k: nat)
    ensures var s, o := first + others, |first| + k;
            At(s, o) == At(others, k) && At(s, o + 1) == At(others, k + 1) && At(s, o + 2) == At(others, k + 2)
  {
  }

  lemma PaletteReads(palette: seq<Colour>, entry: nat, rest: seq<byte>)
    requires entry == 3 || entry == 4
    ensures PaletteAt(PaletteBytes(palette, entry) + rest, entry, |palette|) == Colours(palette)
  {
    hide At, PaletteBytes;
    var s := PaletteBytes(palette, entry) + rest;
    forall i | 0 <= i < |palette|
      ensures PaletteAt(s, entry, |palette|)[i] == Colours(palette)[i]
    {
      ColourReads(palette, entry, rest, i);
    }
  }

  function MaskBytes(r: nat, g: nat, b: nat, a: nat): (bytes: seq<byte>)
    requires r < 0x1_0000_0000 && g < 0x1_0000_0000 && b < 0x1_0000_0000 && a < 0x1_0000_0000
    ensures |bytes| == 16
  {
    Four(r) + (Four(g) + (Four(b) + Four(a)))
  }

  /** The masks that the longest header has are those of the kind. Without alpha, theirs is zero;
      the others do not matter where pixels have no masks. */
  predicate MasksFit(k: Kind, hsz: nat, compression: nat, more: seq<byte>)
    requires KnownSize(hsz) && |more| == hsz - 20
  {
    if hsz != 108 then compression == 0
    else
      && (compression == 0 || compression == 3)
      && match k
         case Words => more[20..36] == MaskBytes(0x7c00, 0x3e0, 0x1f, 0)
         case Quads => more[20..36] == MaskBytes(0xff_0000, 0xff00, 0xff, 0xff00_0000)
         case _ => more[32..36] == Four(0)
  }

  lemma FourMasksRead(file: seq<byte>, r: nat, g: nat, b: nat, a: nat, rest: seq<byte>)
    requires r < 0x1_0000_0000 && g < 0x1_0000_0000 && b < 0x1_0000_0000 && a < 0x1_0000_0000
    requires Dropped(file, 54) == MaskBytes(r, g, b, a) + rest
    ensures MasksAt(file, 54, Le32At(file, 66)) == Masks(r, g, b, a)
  {
    hide Four, Dropped, Le32At;
    Regroup(Four(r), Four(g) + (Four(b) + Four(a)), rest);
    Regroup(Four(g), Four(b) + Four(a), rest);
    Regroup(Four(b), Four(a), rest);
    FieldReads(file, 54, r, Four(g) + (Four(b) + (Four(a) + rest)));
    FieldReads(file, 58, g, Four(b) + (Four(a) + rest));
    FieldReads(file, 62, b, Four(a) + rest);
    FieldReads(file, 66, a, rest);
  }

  lemma DroppedFrom(file: seq<byte>, k: nat, more: seq<byte>, rest: seq<byte>, i: nat, j: nat)
    requires Dropped(file, k) == more + rest && i <= j <= |more|
    ensures Dropped(file, k + i) == more[i..j] + (more[j..] + rest)
  {
    hide Dropped;
    DroppedTwice(file, k, i);
    AfterKnown(more[..i], more[i..] + rest);
    assert more + rest == more[..i] + (more[i..] + rest);
    assert more[i..] + rest == more[i..j] + (more[j..] + rest);
  }

  lemma MasksRead(k: Kind, file: seq<byte>, compression: nat, more: seq<byte>, rest: seq<byte>)
    requires |more| == 88 && MasksFit(k, 108, compression, more) && Dropped(file, 34) == more + rest
    ensures var m := MasksAt(file, 54, Le32At(file, 66));
            match k
            case Words => m == Masks(0x7c00, 0x3e0, 0x1f, 0)
            case Quads => m == Masks(0xff_0000, 0xff00, 0xff, 0xff00_0000)
            case _ => m.a == 0
  {
    hide Four, Dropped, Le32At, MaskBytes;
    match k
    case Words =>
      DroppedFrom(file, 34, more, rest, 20, 36);
      FourMasksRead(file, 0x7c00, 0x3e0, 0x1f, 0, more[36..] + rest);
    case Quads =>
      DroppedFrom(file, 34, more, rest, 20, 36);
      FourMasksRead(file, 0xff_0000, 0xff00, 0xff, 0xff00_0000, more[36..] + rest);
    case _ =>
      DroppedFrom(file, 34, more, rest, 32, 36);
      FieldReads(file, 66, 0, more[36..] + rest);
  }

  /** A file of any kind. A height below zero tells that the top row comes first. */
  function File(hsz: nat, k: Kind, rows: seq<seq<Pixel>>, x: nat, topDown: bool, compression: nat, size: seq<byte>,
                more: seq<byte>): seq<byte>
    requires k.Valid() && Picture(k, rows, x) && x < 0x8000_0000 && |rows| < 0x8000_0000
    requires KnownSize(hsz) && |more| == hsz - 20 && |size| == 4 && MasksFit(k, hsz, compression, more)
  {
    var height := if topDown && rows != [] then 0x1_0000_0000 - |rows| else |rows|;
    Header(hsz, k.Depth(), x, height, 14 + hsz + 4 * |k.Palette()|, compression, size, more)
    + PaletteBytes(k.Palette(), 4) + RowsBytes(k, rows, x)
  }

  /** It loads as its pixels, whatever follows it. */
  lemma FileLoads(hsz: nat, k: Kind, rows: seq<seq<Pixel>>, x: nat, topDown: bool, compression: nat, size: seq<byte>,
                  more: seq<byte>, behind: seq<byte>, reqComp: nat)
    requires k.Valid() && Picture(k, rows, x) && x < 0x8000_0000 && |rows| < 0x8000_0000 && reqComp <= 4
    requires KnownSize(hsz) && |more| == hsz - 20 && |size| == 4 && MasksFit(k, hsz, compression, more)
    ensures BmpDecode(File(hsz, k, rows, x, topDown, compression, size, more) + behind, reqComp)
            == Expected(k, rows, x, topDown, reqComp)
  {
    hide Header, PaletteBytes, RowsBytes, At, Le16At, Le32At, Dropped, Image, Expected, FormatOf, Picture, PixelFormat,
         MasksFit, MasksOf, Decodable, PixelStart;
    var height := if topDown && rows != [] then 0x1_0000_0000 - |rows| else |rows|;
    var offset, pixels := 14 + hsz + 4 * |k.Palette()|, RowsBytes(k, rows, x) + behind;
    assert compression == 0 || compression == 3 by { CompressionKnown(k, hsz, compression, more); }
    var header := Header(hsz, k.Depth(), x, height, offset, compression, size, more);
    var palette := PaletteBytes(k.Palette(), 4);
    var file := File(hsz, k, rows, x, topDown, compression, size, more) + behind;
    Regroup(header + palette, RowsBytes(k, rows, x), behind);
    Regroup(header, palette, pixels);
    HeaderFields(hsz, k.Depth(), x, height, offset, compression, size, more, palette + pixels);
    AfterKnown(header + palette, pixels);
    FormatIs(hsz, k, file, compression, more, pixels);
    ImageLoads(k, rows, x, topDown, reqComp, file, behind);
  }

  lemma CompressionKnown(k: Kind, hsz: nat, compression: nat, more: seq<byte>)
    requires KnownSize(hsz) && |more| == hsz - 20 && MasksFit(k, hsz, compression, more)
    ensures compression == 0 || compression == 3
  {
  }

  /** The fields of a file tell its kind. */
  lemma FormatIs(hsz: nat, k: Kind, file: seq<byte>, compression: nat, more: seq<byte>, pixels: seq<byte>)
    requires k.Valid() && KnownSize(hsz) && |more| == hsz - 20 && MasksFit(k, hsz, compression, more)
    requires HeaderSize(file) == hsz && BmpFormat.Depth(file) == k.Depth() && Compression(file) == compression
    requires Dropped(file, 34) == more + (PaletteBytes(k.Palette(), 4) + pixels)
    requires Le32At(file, 10) == 14 + hsz + 4 * |k.Palette()|
    requires Dropped(file, 14 + hsz) == PaletteBytes(k.Palette(), 4) + pixels
    ensures MasksOf(file).Masks? && (MasksOf(file).a != 0 <==> k.Quads?)
    ensures PixelFormat(file) == FormatOf(k) && Decodable(file) && PixelStart(file) == Le32At(file, 10)
  {
    hide PaletteBytes, At, Le16At, Le32At, Dropped, PaletteAt, MaskBytes, Four;
    PaletteReads(k.Palette(), 4, pixels);
    if hsz == 108 {
      MasksRead(k, file, compression, more, PaletteBytes(k.Palette(), 4) + pixels);
    }
    assert k.Depth() < 16 ==> PaletteSize(file) == |k.Palette()|;
  }

  // What the format means otherwise

  /** A header of the oldest kind, with 12 bytes. */
  function OldHeader(depth: nat, x: nat, y: nat, offset: nat, size: seq<byte>): (h: seq<byte>)
    requires depth < 256 && x < 0x1_0000 && y < 0x1_0000 && offset < 0x1_0000_0000 && |size| == 4
    ensures |h| == 26
  {
    [0x42, 0x4D] + size + [0, 0, 0, 0] + (Four(offset) + (Four(12) + (Two(x) + (Two(y) + [1, 0, depth, 0]))))
  }

  lemma OldHeaderFields(depth: nat, x: nat, y: nat, offset: nat, size: seq<byte>, rest: seq<byte>)
    requires depth < 256 && x < 0x1_0000 && y < 0x1_0000 && offset < 0x1_0000_0000 && |size| == 4
    ensures var s := OldHeader(depth, x, y, offset, size) + rest;
            && At(s, 0) == 0x42 && At(s, 1) == 0x4D && Le32At(s, 10) == offset && Le32At(s, 14) == 12
            && Le16At(s, 18) == x && Le16At(s, 20) == y && Le16At(s, 22) == 1 && Le16At(s, 24) == depth
            && Dropped(s, 26) == rest
  {
    hide Four, Two, Le32At, Le16At, Dropped;
    var head, end := [0x42, 0x4D] + size + [0, 0, 0, 0], [1, 0, depth, 0];
    var tail := end + rest;
    var s := OldHeader(depth, x, y, offset, size) + rest;
    Regroup(head, Four(offset) + (Four(12) + (Two(x) + (Two(y) + end))), rest);
    Regroup(Four(offset), Four(12) + (Two(x) + (Two(y) + end)), rest);
    Regroup(Four(12), Two(x) + (Two(y) + end), rest);
    Regroup(Two(x), Two(y) + end, rest);
    Regroup(Two(y), end, rest);
    AfterKnown(head, Four(offset) + (Four(12) + (Two(x) + (Two(y) + tail))));
    FieldReads(s, 10, offset, Four(12) + (Two(x) + (Two(y) + tail)));
    FieldReads(s, 14, 12, Two(x) + (Two(y) + tail));
    HalfFieldReads(s, 18, x, Two(y) + tail);
    HalfFieldReads(s, 20, y, tail);
    TwoSmall(depth);
    Regroup([1, 0], [depth, 0], rest);
    HalfFieldReads(s, 22, 1, [depth, 0] + rest);
    HalfFieldReads(s, 24, depth, rest);
    MagicReads(size, Four(offset) + (Four(12) + (Two(x) + (Two(y) + tail))));
  }

  lemma TwoSmall(v: nat)
    requires v < 256
    ensures Two(v) == [v, 0] && Two(1) == [1, 0] && [1, 0, v, 0] == [1, 0] + [v, 0]
  {
  }

  lemma HalfFieldReads(s: seq<byte>, k: nat, v: nat, rest: seq<byte>)
    requires v < 0x1_0000 && Dropped(s, k) == Two(v) + rest
    ensures Le16At(s, k) == v && Dropped(s, k + 2) == rest
  {
    hide Le16At;
    WordReads(v, rest);
    AfterKnown(Two(v), rest);
    DroppedTwice(s, k, 2);
    Le16After(s, k);
  }

  /** Behind the oldest header the last four colours of a palette are not read: the pixels have
      to do with the ones before. */
  lemma OldFileLoads(k: Kind, spare: seq<byte>, rows: seq<seq<Pixel>>, x: nat, size: seq<byte>, behind: seq<byte>,
                     reqComp: nat)
    requires k.Valid() && Picture(k, rows, x) && x < 0x1_0000 && |rows| < 0x1_0000 && |size| == 4 && reqComp <= 4
    requires !k.Words? && !k.Quads? && |spare| == if k.Triples? then 0 else 12
    ensures BmpDecode(OldHeader(k.Depth(), x, |rows|, 26 + 3 * |k.Palette()| + |spare|, size)
                      + (PaletteBytes(k.Palette(), 3) + (spare + (RowsBytes(k, rows, x) + behind))), reqComp)
            == Expected(k, rows, x, false, reqComp)
  {
    hide OldHeader, PaletteBytes, RowsBytes, At, Le16At, Le32At, Dropped, Image, Expected, FormatOf, Picture,
         PixelFormat;
    var offset, pixels := 26 + 3 * |k.Palette()| + |spare|, RowsBytes(k, rows, x) + behind;
    var header, palette := OldHeader(k.Depth(), x, |rows|, offset, size), PaletteBytes(k.Palette(), 3);
    var file := header + (palette + (spare + pixels));
    OldHeaderFields(k.Depth(), x, |rows|, offset, size, palette + (spare + pixels));
    assert file == header + palette + spare + pixels;
    AfterKnown(header + palette + spare, pixels);
    OldFormatIs(k, file, spare + pixels);
    ImageLoads(k, rows, x, false, reqComp, file, behind);
  }

  lemma OldFormatIs(k: Kind, file: seq<byte>, rest: seq<byte>)
    requires k.Valid() && HeaderSize(file) == 12 && BmpFormat.Depth(file) == k.Depth() && !k.Words? && !k.Quads?
    requires Le32At(file, 10) == 26 + 3 * |k.Palette()| + if k.Triples? then 0 else 12
    requires Dropped(file, 26) == PaletteBytes(k.Palette(), 3) + rest
    ensures MasksOf(file) == Masks(0, 0, 0, 0)
    ensures PixelFormat(file) == FormatOf(k) && Decodable(file) && PixelStart(file) == Le32At(file, 10)
  {
    hide PaletteBytes, At, Le16At, Le32At, Dropped, PaletteAt;
    PaletteReads(k.Palette(), 3, rest);
    assert k.Depth() < 16 ==> PaletteSize(file) == |k.Palette()|;
  }

  /** Masks behind the header: the pixels are looked for twelve bytes after the place that the
      file tells. */
  lemma MaskedFileLoads(hsz: nat, skipped: seq<byte>, rows: seq<seq<Pixel>>, x: nat, size: seq<byte>, more: seq<byte>,
                        behind: seq<byte>, reqComp: nat)
    requires Picture(Words, rows, x) && x < 0x8000_0000 && |rows| < 0x8000_0000 && |size| == 4
    requires (hsz == 40 || hsz == 56) && |more| == hsz - 20 && |skipped| == 12 && reqComp <= 4
    ensures BmpDecode(Header(hsz, 16, x, |rows|, hsz + 26, 3, size, more)
                      + (Four(0x7c00) + (Four(0x3e0)
                                         + (Four(0x1f) + (skipped + (RowsBytes(Words, rows, x) + behind))))), reqComp)
            == Expected(Words, rows, x, false, reqComp)
  {
    hide Header, RowsBytes, At, Le16At, Le32At, Dropped, Image, Expected, Four, Picture;
    var pixels := RowsBytes(Words, rows, x) + behind;
    var header, tail := Header(hsz, 16, x, |rows|, hsz + 26, 3, size, more), skipped + pixels;
    var file := header + (Four(0x7c00) + (Four(0x3e0) + (Four(0x1f) + tail)));
    HeaderFields(hsz, 16, x, |rows|, hsz + 26, 3, size, more, Four(0x7c00) + (Four(0x3e0) + (Four(0x1f) + tail)));
    FieldReads(file, 14 + hsz, 0x7c00, Four(0x3e0) + (Four(0x1f) + tail));
    FieldReads(file, 18 + hsz, 0x3e0, Four(0x1f) + tail);
    FieldReads(file, 22 + hsz, 0x1f, tail);
    AfterKnown(skipped, pixels);
    DroppedTwice(file, 26 + hsz, 12);
    ImageLoads(Words, rows, x, false, reqComp, file, behind);
  }

  /** Files are refused that begin otherwise, have another header, more planes than one, one bit
      a pixel, or are compressed. */
  lemma Refused(file: seq<byte>, reqComp: nat)
    requires reqComp <= 4
    requires
      || At(file, 0) != 0x42 || At(file, 1) != 0x4D || Le32At(file, 14) !in {12, 40, 56, 108}
      || Le16At(file, if Le32At(file, 14) == 12 then 22 else 26) != 1
      || Le16At(file, if Le32At(file, 14) == 12 then 24 else 28) == 1
      || (Le32At(file, 14) != 12 && Le32At(file, 30) in {1, 2})
    ensures BmpDecode(file, reqComp) == Failed
  {
    hide At, Le16At, Le32At, Image, PixelFormat, Decodable;
  }
}
