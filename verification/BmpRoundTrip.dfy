/** What `stbi_write_bmp` writes of an image of three components, `bmp_load` reads back. */
module BmpRoundTrip {
  import opened Basics
  import opened BmpFormat
  import opened BmpLoader
  import opened Bytes
  import opened ImageReader
  import opened ImageWriter
  import opened Powers
  import opened Scanlines

  /** Three samples a pixel, blue first, no alpha. */
  predicate Plainly(l: Layout) {
    l.comp == 3 && l.rgbDir == -1 && l.alpha == 0
  }

  lemma {:induction false} LineReads(row: seq<byte>, rest: seq<byte>, x: nat, l: Layout)
    requires |row| == x * 3 && Plainly(l)
    ensures Line(Direct(3), WrittenRow(row, l) + rest, 3, x) == row
    ensures |WrittenRow(row, l)| == 3 * x
    decreases x
  {
    hide At, Dropped, Line, WrittenRow;
    if x == 0 {
      NoPixel(row, rest, l);
    } else {
      var d, others := row[..3], WrittenRow(row[3..], l);
      LineReads(row[3..], rest, x - 1, l);
      PixelReads(row, d, others, rest, x, l);
      assert row == d + row[3..];
    }
  }

  lemma NoPixel(row: seq<byte>, rest: seq<byte>, l: Layout)
    requires row == [] && Plainly(l)
    ensures WrittenRow(row, l) == [] && Line(Direct(3), [] + rest, 3, 0) == []
  {
  }

  lemma PixelReads(row: seq<byte>, d: seq<byte>, others: seq<byte>, rest: seq<byte>, x: nat, l: Layout)
    requires Plainly(l) && |row| >= 3 && d == row[..3] && others == WrittenRow(row[3..], l) && x > 0
    ensures WrittenRow(row, l) == [d[2], d[1], d[0]] + others
    ensures Line(Direct(3), WrittenRow(row, l) + rest, 3, x) == d + Line(Direct(3), others + rest, 3, x - 1)
  {
    var p := [d[2], d[1], d[0]];
    assert WrittenRow(row, l) == p + others by { hide Line; }
    var s := p + (others + rest);
    assert WrittenRow(row, l) + rest == s;
    hide WrittenRow;
    assert Dropped(s, 3) == others + rest;
    assert PixelAt(Direct(3), s, 3) == d;
  }

  /** The rows come back last row first, without their padding. */
  lemma {:induction false} LinesRead(data: seq<byte>, x: nat, y: nat)
    requires |data| == x * 3 * y
    ensures Lines(Direct(3), WrittenRows(data, x * 3, y, BmpLayout(x, 3)), 3, x, y) == RowsReversed(data, x * 3, y)
    decreases y
  {
    hide WrittenRow, Line;
    if y > 0 {
      LastRow(x * 3, y);
      var last, init := data[x * 3 * (y - 1)..], data[..x * 3 * (y - 1)];
      LinesRead(init, x, y - 1);
      var l := BmpLayout(x, 3);
      var row, padding, rest := WrittenRow(last, l), Zeros(l.pad), WrittenRows(init, x * 3, y - 1, l);
      LineReads(last, padding + rest, x, l);
      assert row + padding + rest == row + (padding + rest);
      AfterKnown(row + padding, rest);
    }
  }

  lemma Le32Reads(v: nat, a: seq<byte>, b: seq<byte>)
    requires v < 0x1_0000_0000
    ensures Le32At(a + Le32(v) + b, |a|) == v
  {
    var s := a + Le32(v) + b;
    assert s[|a|..|a| + 4] == Le32(v);
    assert s[|a|] == Le32(v)[0] && s[|a| + 1] == Le32(v)[1] && s[|a| + 2] == Le32(v)[2] && s[|a| + 3] == Le32(v)[3];
    FourBytes(v);
  }

  lemma FourBytes(v: nat)
    requires v < 0x1_0000_0000
    ensures Word(Le32(v)[0], Le32(v)[1]) + Word(Le32(v)[2], Le32(v)[3]) * 0x1_0000 == v
  {
    var a := v / 0x100;
    var b := a / 0x100;
    var c := b / 0x100;
    Quotients(v);
    Digits(v);
    assert Le32(v) == [v % 0x100, a % 0x100, b % 0x100, c];
    hide Le32;
  }

  lemma Digits(v: nat)
    ensures var a := v / 0x100; var b := a / 0x100; var c := b / 0x100;
            v == v % 0x100 + (a % 0x100) * 0x100 + (b % 0x100) * 0x1_0000 + c * 0x100_0000
  {
    var a := v / 0x100;
    var b := a / 0x100;
    assert v == a * 0x100 + v % 0x100;
    assert a == b * 0x100 + a % 0x100;
    assert b == b / 0x100 * 0x100 + b % 0x100;
  }

  lemma Quotients(v: nat)
    requires v < 0x1_0000_0000
    ensures v / 0x1_0000 == v / 0x100 / 0x100 && v / 0x100_0000 == v / 0x100 / 0x100 / 0x100 < 0x100
  {
    var a := v / 0x100;
    var b := a / 0x100;
    var c := b / 0x100;
    Digits(v);
    DivModUnique(v, 0x1_0000, b, v % 0x100 + (a % 0x100) * 0x100);
    DivModUnique(v, 0x100_0000, c, v % 0x100 + (a % 0x100) * 0x100 + (b % 0x100) * 0x1_0000);
  }

  lemma Le16Reads(v: nat, a: seq<byte>, b: seq<byte>)
    requires v < 0x1_0000
    ensures Le16At(a + Le16(v) + b, |a|) == v
  {
    var s := a + Le16(v) + b;
    assert s[|a|] == Le16(v)[0] && s[|a| + 1] == Le16(v)[1];
  }

  /** The fields of the header, one after another. */
  lemma HeaderReads(x: nat, y: nat, rest: seq<byte>)
    requires x < 0x8000_0000 && y < 0x8000_0000
    ensures var s := BmpHeader(x, y) + rest;
            && At(s, 0) == 0x42 && At(s, 1) == 0x4D && Le32At(s, 10) == 54 && Le32At(s, 14) == 40
            && Le32At(s, 18) == x && Le32At(s, 22) == y
            && Le16At(s, 26) == 1 && Le16At(s, 28) == 24 && Le32At(s, 30) == 0 && Dropped(s, 54) == rest
  {
    hide Le32, Le16, Le32At, Le16At;
    Sizes(x, y);
    var zeros := Le32(0) + Le32(0) + Le32(0) + Le32(0) + Le32(0);
    var a := [0x42, 0x4D] + Le32(54 + (x * 3 + RowPadding(x)) * y) + Le16(0) + Le16(0);
    var s, left := BmpHeader(x, y) + rest, zeros + rest;
    var t := Le32(0) + left;
    var u := Le16(24) + t;
    var v := Le16(1) + u;
    var w := Le32(y) + v;
    var r := Le32(x) + w;
    var q := Le32(40) + r;
    assert s == a + (Le32(54) + q);
    ReadLe32(a, 54, q, s);
    ReadLe32(a + Le32(54), 40, r, s);
    ReadLe32(a + Le32(54) + Le32(40), x, w, s);
    ReadLe32(a + Le32(54) + Le32(40) + Le32(x), y, v, s);
    ReadLe16(a + Le32(54) + Le32(40) + Le32(x) + Le32(y), 1, u, s);
    ReadLe16(a + Le32(54) + Le32(40) + Le32(x) + Le32(y) + Le16(1), 24, t, s);
    ReadLe32(a + Le32(54) + Le32(40) + Le32(x) + Le32(y) + Le16(1) + Le16(24), 0, left, s);
    AfterKnown(BmpHeader(x, y), rest);
  }

  lemma Sizes(x: nat, y: nat)
    ensures forall v: int {:trigger Le32(v)} :: |Le32(v)| == 4
    ensures forall v: int {:trigger Le16(v)} :: |Le16(v)| == 2
  {
  }

  lemma ReadLe32(a: seq<byte>, v: nat, t: seq<byte>, s: seq<byte>)
    requires v < 0x1_0000_0000 && s == a + (Le32(v) + t)
    ensures Le32At(s, |a|) == v && s == a + Le32(v) + t
  {
    hide Le32, Le32At;
    assert a + (Le32(v) + t) == a + Le32(v) + t;
    Le32Reads(v, a, t);
  }

  lemma ReadLe16(a: seq<byte>, v: nat, t: seq<byte>, s: seq<byte>)
    requires v < 0x1_0000 && s == a + (Le16(v) + t)
    ensures Le16At(s, |a|) == v && s == a + Le16(v) + t
  {
    hide Le16, Le16At;
    assert a + (Le16(v) + t) == a + Le16(v) + t;
    Le16Reads(v, a, t);
  }

  lemma {:induction false} RowsLength(data: seq<byte>, x: nat, y: nat)
    requires |data| == x * 3 * y
    ensures |WrittenRows(data, x * 3, y, BmpLayout(x, 3))| == (x * 3 + RowPadding(x)) * y
    decreases y
  {
    hide WrittenRow;
    if y > 0 {
      LastRow(x * 3, y);
      LastRow(x * 3 + RowPadding(x), y);
      RowsLength(data[..x * 3 * (y - 1)], x, y - 1);
      LineReads(data[x * 3 * (y - 1)..], [], x, BmpLayout(x, 3));
    }
  }

  lemma LowestFour(v: nat)
    ensures Le32(v) == Le32(v % 0x1_0000_0000)
  {
    var q, r := v / 0x1_0000_0000, v % 0x1_0000_0000;
    assert v == q * 0x1_0000_0000 + r;
    AddMultiple(q * 0x100_0000, 0x100, r);
    AddMultiple(q * 0x1_0000, 0x1_0000, r);
    AddMultiple(q * 0x100, 0x100_0000, r);
    LowByte(q * 0x100_0000, r);
    LowByte(q * 0x1_0000, r / 0x100);
    LowByte(q * 0x100, r / 0x1_0000);
    LowByte(q, r / 0x100_0000);
  }

  lemma LowByte(q: nat, r: nat)
    ensures Low8(q * 0x100 + r) == Low8(r)
  {
    DivModUnique(q * 0x100 + r, 0x100, q + r / 0x100, r % 0x100);
  }

  /** The header tells the size of the file, as far as 32 bits go. */
  lemma SizeField(x: nat, y: nat, data: seq<byte>)
    requires |data| == x * 3 * y
    ensures var file := BmpHeader(x, y) + WrittenRows(data, x * 3, y, BmpLayout(x, 3));
            Le32At(file, 2) == |file| % 0x1_0000_0000
  {
    hide Le32, Le32At, WrittenRows;
    var size := 54 + (x * 3 + RowPadding(x)) * y;
    RowsLength(data, x, y);
    LowestFour(size);
    var rows := WrittenRows(data, x * 3, y, BmpLayout(x, 3));
    Sizes(x, y);
    var tail := Le16(0) + Le16(0) + Le32(54) + Le32(40) + Le32(x) + Le32(y) + Le16(1) + Le16(24)
                + Le32(0) + Le32(0) + Le32(0) + Le32(0) + Le32(0) + Le32(0) + rows;
    assert BmpHeader(x, y) + rows == [0x42, 0x4D] + Le32(size) + tail;
    Le32Reads(size % 0x1_0000_0000, [0x42, 0x4D], tail);
  }

  /** For every image of three components that fits the header; it is loaded as long as its
      bytes can be counted. */
  lemma FileReads(x: nat, y: nat, data: seq<byte>)
    requires x < 0x8000_0000 && y < 0x8000_0000 && |data| == x * 3 * y
    ensures BmpDecode(BmpHeader(x, y) + WrittenRows(data, x * 3, y, BmpLayout(x, 3)), 3)
            == if |data| < INT_LIMIT then Loaded(x, y, 3, data) else TooLarge
  {
    hide BmpHeader, WrittenRows, Lines, RowsReversed, Le16At, Le32At, At, Dropped;
    HeaderReads(x, y, WrittenRows(data, x * 3, y, BmpLayout(x, 3)));
    LinesRead(data, x, y);
    ReversedTwice(data, x * 3, y);
    if y == 0 {
      NoRows(data, x * 3);
    }
  }

  lemma NoRows(data: seq<byte>, w: nat)
    requires |data| == w * 0
    ensures RowsReversed(data, w, 0) == data == []
  {
  }

  method RoundTrip(x: nat, y: nat, data: seq<byte>) returns (result: Outcome)
    requires x < 0x8000_0000 && y < 0x8000_0000 && |data| == x * 3 * y
    ensures result == if |data| < INT_LIMIT then Loaded(x, y, 3, data) else TooLarge
  {
    var file := StbiWriteBmp(x, y, 3, data);
    var s := new Stbi(file);
    result := BmpLoad(s, 3);
    FileReads(x, y, data);
  }
}
