/** Section 6 of RFC 2083 on its own: what each type byte does to a row, stated from the samples
    of the image, and what the unfiltering makes of it. */
module PngEncoding {
  import opened Basics
  import opened Bytes
  import opened PixelMemory
  import opened PngFilters
  import opened PngInterlace
  import opened PngUnfilter
  import opened Powers

  // The encoder

  /** Byte `i` of row `j`; zero to the left of the image and above it. */
  function Sample(rows: seq<seq<byte>>, j: int, i: int): byte {
    if 0 <= j < |rows| && 0 <= i < |rows[j]| then rows[j][i] else 0
  }

  /** Of left, above and corner the one nearest to left + above - corner, in that order. */
  function Nearest(a: byte, b: byte, c: byte): byte {
    if Abs(b - c) <= Abs(a - c) && Abs(b - c) <= Abs(a + b - 2 * c) then a
    else if Abs(a - c) <= Abs(a + b - 2 * c) then b
    else c
  }

  /** Sections 6.2 to 6.6: none, Sub, Up, Average and Paeth. */
  function Filtered(rows: seq<seq<byte>>, t: byte, n: nat, j: nat, i: nat): byte {
    var x, a, b, c := Sample(rows, j, i), Sample(rows, j, i - n), Sample(rows, j - 1, i), Sample(rows, j - 1, i - n);
    match t
    case 1 => (x - a) % 256
    case 2 => (x - b) % 256
    case 3 => (x - (a + b) / 2) % 256
    case 4 => (x - Nearest(a, b, c)) % 256
    case _ => x
  }

  function FilteredRow(rows: seq<seq<byte>>, t: byte, n: nat, j: nat): (r: seq<byte>)
    requires j < |rows|
    ensures |r| == |rows[j]|
  {
    seq(|rows[j]|, i requires 0 <= i < |rows[j]| => Filtered(rows, t, n, j, i))
  }

  /** The rows from number `j` on, each behind its type. */
  function Stream(rows: seq<seq<byte>>, types: seq<byte>, n: nat, j: nat): seq<byte>
    requires |types| == |rows| && j <= |rows|
    decreases |rows| - j
  {
    if j == |rows| then [] else [types[j]] + FilteredRow(rows, types[j], n, j) + Stream(rows, types, n, j + 1)
  }

  lemma NearestIsPaeth(a: byte, b: byte, c: byte)
    ensures Nearest(a, b, c) == Paeth(a, b, c)
  {
  }

  /** The row above row `j`. */
  function Above(rows: seq<seq<byte>>, w: nat, j: nat): seq<byte>
    requires j <= |rows|
  {
    if j == 0 then ZeroRow(w) else rows[j - 1]
  }

  lemma RowIsFiltered(rows: seq<seq<byte>>, w: nat, t: byte, n: nat, j: nat)
    requires n > 0 && t <= 4 && j < |rows| && Image(rows, w)
    ensures |Above(rows, w, j)| == |rows[j]| == w
    ensures FilteredRow(rows, t, n, j) == Filter(t, Above(rows, w, j), rows[j], n)
  {
    var prior, row := Above(rows, w, j), rows[j];
    assert rows[j] in rows && (j > 0 ==> rows[j - 1] in rows);
    hide Paeth, Nearest;
    forall i | 0 <= i < w
      ensures Filtered(rows, t, n, j, i) == (row[i] - Predicted(t, prior, row, n, i)) % 256
    {
      NearestIsPaeth(Sample(rows, j, i - n), Sample(rows, j - 1, i), Sample(rows, j - 1, i - n));
    }
  }

  lemma {:induction false} StreamIsEncoded(rows: seq<seq<byte>>, w: nat, types: seq<byte>, n: nat, j: nat)
    requires n > 0 && |types| == |rows| && Filters(types) && Image(rows, w) && j <= |rows|
    ensures |Above(rows, w, j)| == w && Image(rows[j..], w)
    ensures Stream(rows, types, n, j) == Encode(Above(rows, w, j), rows[j..], types[j..], n)
    decreases |rows| - j
  {
    hide FilteredRow, Filter;
    assert forall k {:trigger rows[k]} :: 0 <= k < |rows| ==> rows[k] in rows;
    if j < |rows| {
      StreamIsEncoded(rows, w, types, n, j + 1);
      assert types[j] in types;
      RowIsFiltered(rows, w, types[j], n, j);
      assert rows[j..][1..] == rows[j + 1..] && types[j..][1..] == types[j + 1..];
    }
  }

  // What each type byte says of the decoded row

  /** A decoded sample is the one in the data and what the type byte tells to add: nothing, the
      left one, the one above, half their sum, or the nearest of the three. */
  lemma FiltersByNumber(t: nat, prior: seq<byte>, data: seq<byte>, n: nat, i: nat)
    requires n > 0 && i < |data| <= |prior| && t <= 4
    ensures var row := Unfilter(t, prior, data, n);
            var v: int, a: int, b: int := data[i], if i < n then 0 else row[i - n], prior[i];
            var c: int := if i < n then 0 else prior[i - n];
            && (t == 0 ==> row[i] == v)
            && (t == 1 ==> row[i] == (v + a) % 256)
            && (t == 2 ==> row[i] == (v + b) % 256)
            && (t == 3 ==> row[i] == (v + (a + b) / 2) % 256)
            && (t == 4 ==> row[i] == (v + Nearest(a, b, c)) % 256)
  {
    hide Unfilter, Paeth, Nearest;
    UnfilterAt(t, prior, data, n, i);
    var row := Unfilter(t, prior, data, n);
    NearestIsPaeth(if i < n then 0 else row[i - n], prior[i], if i < n then 0 else prior[i - n]);
  }

  /** The type byte of row `j`. */
  function TypeByte(raw: seq<byte>, w: nat, j: nat): nat {
    if j * (w + 1) < |raw| then raw[j * (w + 1)] else 0
  }

  ghost predicate Typed(raw: seq<byte>, w: nat, y: nat) {
    forall j: nat :: j < y ==> TypeByte(raw, w, j) <= 4
  }

  lemma NextType(raw: seq<byte>, w: nat, j: nat)
    requires |raw| > w
    ensures TypeByte(raw, w, j + 1) == TypeByte(raw[w + 1..], w, j) && TypeByte(raw, w, 0) == raw[0]
  {
    Distributes(j, 1, w + 1);
  }

  lemma TypedNext(raw: seq<byte>, w: nat, y: nat)
    requires y > 0 && |raw| > w
    ensures Typed(raw, w, y) <==> raw[0] <= 4 && Typed(raw[w + 1..], w, y - 1)
  {
    hide TypeByte;
    NextType(raw, w, 0);
    var rest := raw[w + 1..];
    if Typed(raw, w, y) {
      forall j: nat | j < y - 1
        ensures TypeByte(rest, w, j) <= 4
      {
        NextType(raw, w, j);
      }
    }
    if raw[0] <= 4 && Typed(rest, w, y - 1) {
      forall j: nat | j < y
        ensures TypeByte(raw, w, j) <= 4
      {
        if j > 0 {
          NextType(raw, w, j - 1);
        }
      }
    }
  }

  /** Data decodes if and only if it is long enough and its type bytes are the five. */
  lemma {:induction false} DecodesIff(prior: seq<byte>, raw: seq<byte>, n: nat, y: nat)
    requires n > 0
    ensures Decode(prior, raw, n, y).Rows? <==> |raw| >= (|prior| + 1) * y && Typed(raw, |prior|, y)
    decreases y
  {
    hide Unfilter, Typed, Decode;
    var w := |prior|;
    if y == 0 {
      NothingTyped(raw, w);
      DecodeNone(prior, raw, n);
    } else {
      RowsTake(w, y);
      RowDecodes(prior, raw, n, y);
      if |raw| > w {
        TypedNext(raw, w, y);
        DecodesIff(Unfilter(raw[0], prior, raw[1..w + 1], n), raw[w + 1..], n, y - 1);
      }
    }
  }

  lemma RowDecodes(prior: seq<byte>, raw: seq<byte>, n: nat, y: nat)
    requires n > 0 && y > 0
    ensures Decode(prior, raw, n, y).Rows? <==>
            |raw| > |prior| && raw[0] <= 4 &&
            Decode(Unfilter(raw[0], prior, raw[1..|prior| + 1], n), raw[|prior| + 1..], n, y - 1).Rows?
  {
    hide Unfilter;
  }

  lemma NothingTyped(raw: seq<byte>, w: nat)
    ensures Typed(raw, w, 0) && (w + 1) * 0 == 0
  {
  }

  lemma RowsTake(w: nat, y: nat)
    requires y > 0
    ensures (w + 1) * y == (w + 1) * (y - 1) + w + 1
  {
  }

  // In memory

  /** The samples of pixel `i` of row `j`, and 255 behind them when alpha is added. */
  lemma SampleInMemory(rows: seq<seq<byte>>, n: nat, m: nat, x: nat, j: nat, i: nat, k: nat)
    requires 0 < n <= m <= n + 1 && Image(rows, x * n) && j < |rows| && i < x && k < m
    ensures |rows[j]| == x * n && i * n + n <= x * n
    ensures Offset(x, m, i, j) + m <= |Pixels(rows, n, m)|
    ensures Pixels(rows, n, m)[Offset(x, m, i, j) + k] == if k < n then rows[j][i * n + k] else 255
  {
    hide Pixels, Image, Offset, InMemory, Pixel;
    ImageRow(rows, x * n, j);
    PixelsBefore(x, n, i);
    PixelsAt(rows, n, m, x, j, i);
    PixelIs(Pixels(rows, n, m), x, m, i, j, Offset(x, m, i, j));
    InMemoryAt(rows[j], x, i, n, m, k);
  }

  lemma InMemoryAt(row: seq<byte>, x: nat, i: nat, n: nat, m: nat, k: nat)
    requires 0 < n <= m <= n + 1 && |row| == x * n && i * n + n <= |row| && k < m
    ensures |InMemory(row, i, n, m)| == m && InMemory(row, i, n, m)[k] == if k < n then row[i * n + k] else 255
  {
  }

  /** Every image comes back, sample by sample, whatever types its rows are given. */
  method Recover(png: Png, rows: seq<seq<byte>>, types: seq<byte>, outN: nat) returns (ok: bool)
    requires 0 < png.imgN <= outN <= png.imgN + 1 && png.imgX > 0 && |rows| == |types| == png.imgY
    requires Image(rows, png.imgX * png.imgN) && forall j :: 0 <= j < |types| ==> types[j] <= 4
    modifies png
    ensures ok && forall j: nat, i: nat, k: nat :: j < png.imgY && i < png.imgX && k < outN ==>
              StoredSample(png.out[..], rows, png.imgX, png.imgN, outN, j, i, k)
  {
    hide Encode, Decode, Pixels, Stream, Image, StoredSample;
    var w := png.imgX * png.imgN;
    var raw := Stream(rows, types, png.imgN, 0);
    StreamIsEncoded(rows, w, types, png.imgN, 0);
    assert rows[0..] == rows && types[0..] == types;
    EncodeLength(ZeroRow(w), rows, types, png.imgN);
    DecodeInvertsEncode(ZeroRow(w), rows, types, png.imgN, []);
    assert raw + [] == raw;
    ok := png.CreatePngImageRaw(raw, outN, png.imgX, png.imgY);
    forall j: nat, i: nat, k: nat | j < png.imgY && i < png.imgX && k < outN
      ensures StoredSample(png.out[..], rows, png.imgX, png.imgN, outN, j, i, k)
    {
      SampleStored(rows, png.imgN, outN, png.imgX, j, i, k);
    }
  }

  /** Sample `k` of pixel `i` of row `j`, in memory after the pixels before it. */
  ghost predicate StoredSample(a: seq<byte>, rows: seq<seq<byte>>, x: nat, n: nat, m: nat, j: nat, i: nat, k: nat) {
    var o := (j * x + i) * m + k;
    o < |a| && a[o] == if k < n then Sample(rows, j, i * n + k) else 255
  }

  lemma SampleStored(rows: seq<seq<byte>>, n: nat, m: nat, x: nat, j: nat, i: nat, k: nat)
    requires 0 < n <= m <= n + 1 && Image(rows, x * n) && j < |rows| && i < x && k < m
    ensures StoredSample(Pixels(rows, n, m), rows, x, n, m, j, i, k)
  {
    hide Pixels, Image;
    SampleInMemory(rows, n, m, x, j, i, k);
  }
}
