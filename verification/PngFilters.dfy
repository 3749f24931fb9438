/** The scanline filters of PNG (section 6 of RFC 2083): the predictors, a filtering encoder
    and the decoder that inverts it. A row is the samples of a scanline; `n` is the number of
    samples in a pixel. */
module PngFilters {
  import opened Basics
  import opened Bytes

  /** Of `a`, `b` and `c` the nearest to `a + b - c`; the earlier one when two are as near. */
  function Paeth(a: int, b: int, c: int): (r: int)
    ensures r == a || r == b || r == c
    ensures var p := a + b - c; Abs(p - r) <= Abs(p - a) && Abs(p - r) <= Abs(p - b) && Abs(p - r) <= Abs(p - c)
    ensures var p := a + b - c; (Abs(p - a) == Abs(p - r) ==> r == a) && (Abs(p - b) == Abs(p - r) ==> r == a || r == b)
  {
    var p := a + b - c;
    var pa, pb, pc := Abs(p - a), Abs(p - b), Abs(p - c);
    if pa <= pb && pa <= pc then a else if pb <= pc then b else c
  }

  /** What filter `f` predicts from the samples to the left, above, and above to the left. */
  function Predict(f: nat, left: byte, above: byte, corner: byte): byte {
    if f == 1 then left
    else if f == 2 then above
    else if f == 3 then (left + above) / 2
    else if f == 4 then Paeth(left, above, corner)
    else 0
  }

  /** Sample `i` of a row, with zeros to the left of it. */
  function At(row: seq<byte>, i: int): byte
    requires i < |row|
  {
    if i < 0 then 0 else row[i]
  }

  function Predicted(f: nat, prior: seq<byte>, row: seq<byte>, n: nat, i: nat): byte
    requires n > 0 && i < |prior| && i - n < |row|
  {
    Predict(f, At(row, i - n), prior[i], At(prior, i - n))
  }

  /** The encoder's filter. */
  function Filter(f: nat, prior: seq<byte>, row: seq<byte>, n: nat): (data: seq<byte>)
    requires n > 0 && |row| <= |prior|
    ensures |data| == |row|
  {
    seq(|row|, i requires 0 <= i < |row| => (row[i] - Predicted(f, prior, row, n, i)) % 256)
  }

  function Unfilter(f: nat, prior: seq<byte>, data: seq<byte>, n: nat): (row: seq<byte>)
    requires n > 0 && |data| <= |prior|
    ensures |row| == |data|
  {
    if data == [] then []
    else
      var i := |data| - 1;
      var done := Unfilter(f, prior, data[..i], n);
      done + [(data[i] + Predicted(f, prior, done, n, i)) % 256]
  }

  /** Every sample of the decoded row is its filtered value plus the prediction. */
  lemma {:induction false} UnfilterAt(f: nat, prior: seq<byte>, data: seq<byte>, n: nat, i: nat)
    requires n > 0 && i < |data| <= |prior|
    ensures var row := Unfilter(f, prior, data, n); row[i] == (data[i] + Predicted(f, prior, row, n, i)) % 256
  {
    if i < |data| - 1 {
      UnfilterAt(f, prior, data[..|data| - 1], n, i);
    }
  }

  lemma {:induction false} UnfilterInvertsFilter(f: nat, prior: seq<byte>, row: seq<byte>, n: nat)
    requires n > 0 && |row| <= |prior|
    ensures Unfilter(f, prior, Filter(f, prior, row, n), n) == row
  {
    if row != [] {
      var i := |row| - 1;
      UnfilterInvertsFilter(f, prior, row[..i], n);
      var data := Filter(f, prior, row, n);
      assert data[..i] == Filter(f, prior, row[..i], n);
      ModRestores(row[i], Predicted(f, prior, row, n, i));
      assert row == row[..i] + [row[i]];
    }
  }

  lemma ModRestores(v: byte, p: byte)
    ensures ((v - p) % 256 + p) % 256 == v
  {
  }

  /** Nothing is lost the other way round either: filtering is a bijection. */
  lemma {:induction false} FilterInvertsUnfilter(f: nat, prior: seq<byte>, data: seq<byte>, n: nat)
    requires n > 0 && |data| <= |prior|
    ensures Filter(f, prior, Unfilter(f, prior, data, n), n) == data
  {
    var row := Unfilter(f, prior, data, n);
    forall i | 0 <= i < |data|
      ensures Filter(f, prior, row, n)[i] == data[i]
    {
      UnfilterAt(f, prior, data, n, i);
      ModCancels(data[i], Predicted(f, prior, row, n, i));
    }
  }

  lemma ModCancels(v: byte, p: byte)
    ensures ((v + p) % 256 - p) % 256 == v
  {
  }

  // Images

  function ZeroRow(w: nat): seq<byte> {
    seq(w, _ => 0)
  }

  ghost predicate Image(rows: seq<seq<byte>>, w: nat) {
    forall r :: r in rows ==> |r| == w
  }

  ghost predicate Filters(filters: seq<byte>) {
    forall f :: f in filters ==> f <= 4
  }

  /** Each row filtered by its own filter, whose number goes first. */
  function Encode(prior: seq<byte>, rows: seq<seq<byte>>, filters: seq<byte>, n: nat): seq<byte>
    requires n > 0 && |filters| == |rows| && Image(rows, |prior|)
    decreases |rows|
  {
    if rows == [] then []
    else [filters[0]] + Filter(filters[0], prior, rows[0], n) + Encode(rows[0], rows[1..], filters[1..], n)
  }

  datatype Decoded = Rows(rows: seq<seq<byte>>) | Corrupt

  /** The decoder, for any bytes: `y` rows as wide as `prior`. */
  function Decode(prior: seq<byte>, raw: seq<byte>, n: nat, y: nat): (d: Decoded)
    requires n > 0
    ensures d.Rows? ==> |d.rows| == y && Image(d.rows, |prior|)
    decreases y
  {
    if y == 0 then Rows([])
    else if |raw| <= |prior| || raw[0] > 4 then Corrupt
    else
      var row := Unfilter(raw[0], prior, raw[1..|prior| + 1], n);
      var rest := Decode(row, raw[|prior| + 1..], n, y - 1);
      if rest.Rows? then Rows([row] + rest.rows) else Corrupt
  }

  lemma {:induction false} EncodeLength(prior: seq<byte>, rows: seq<seq<byte>>, filters: seq<byte>, n: nat)
    requires n > 0 && |filters| == |rows| && Image(rows, |prior|)
    ensures |Encode(prior, rows, filters, n)| == (|prior| + 1) * |rows|
    decreases |rows|
  {
    hide Filter;
    if rows != [] {
      ImageTail(rows, |prior|);
      EncodeLength(rows[0], rows[1..], filters[1..], n);
      assert (|prior| + 1) * |rows| == (|prior| + 1) * (|rows| - 1) + |prior| + 1;
    }
  }

  lemma ImageTail(rows: seq<seq<byte>>, w: nat)
    requires Image(rows, w) && rows != []
    ensures |rows[0]| == w && Image(rows[1..], w)
  {
  }

  /** Unfiltering inverts filtering, whatever filter each row was given. */
  lemma {:induction false} DecodeInvertsEncode(prior: seq<byte>, rows: seq<seq<byte>>, filters: seq<byte>, n: nat,
                                               more: seq<byte>)
    requires n > 0 && |filters| == |rows| && Image(rows, |prior|) && Filters(filters)
    ensures Decode(prior, Encode(prior, rows, filters, n) + more, n, |rows|) == Rows(rows)
    decreases |rows|
  {
    hide Filter, Unfilter, Image, Decode, Encode;
    if rows == [] {
      DecodeNone(prior, Encode(prior, rows, filters, n) + more, n);
    } else {
      ImageTail(rows, |prior|);
      assert filters[0] in filters && forall f :: f in filters[1..] ==> f in filters;
      var data, rest := Filter(filters[0], prior, rows[0], n), Encode(rows[0], rows[1..], filters[1..], n) + more;
      DecodeInvertsEncode(rows[0], rows[1..], filters[1..], n, more);
      UnfilterInvertsFilter(filters[0], prior, rows[0], n);
      EncodeRow(prior, rows, filters, n, more);
      DecodeRow(filters[0], prior, data, rest, n, |rows|);
    }
  }

  lemma EncodeRow(prior: seq<byte>, rows: seq<seq<byte>>, filters: seq<byte>, n: nat, more: seq<byte>)
    requires n > 0 && |filters| == |rows| && Image(rows, |prior|) && rows != []
    ensures |rows[0]| == |prior| && Image(rows[1..], |rows[0]|)
    ensures Encode(prior, rows, filters, n) + more ==
            [filters[0]] + Filter(filters[0], prior, rows[0], n) + (Encode(rows[0], rows[1..], filters[1..], n) + more)
  {
    hide Filter;
  }

  lemma DecodeNone(prior: seq<byte>, raw: seq<byte>, n: nat)
    requires n > 0
    ensures Decode(prior, raw, n, 0) == Rows([])
  {
  }

  /** One row of the decoder. */
  lemma DecodeRow(f: byte, prior: seq<byte>, data: seq<byte>, rest: seq<byte>, n: nat, y: nat)
    requires n > 0 && f <= 4 && |data| == |prior| && y > 0
    ensures var row, d := Unfilter(f, prior, data, n), Decode(prior, [f] + data + rest, n, y);
            var others := Decode(row, rest, n, y - 1);
            d == if others.Rows? then Rows([row] + others.rows) else Corrupt
  {
    hide Unfilter;
    var raw := [f] + data + rest;
    assert raw[1..|prior| + 1] == data && raw[|prior| + 1..] == rest;
  }

  // The image in memory, with room for an alpha sample after each pixel

  /** The pixels of a row at `m` samples each; the samples past the `n` of the row are 255. */
  function Expand(row: seq<byte>, n: nat, m: nat): seq<byte>
    requires 0 < n <= m <= n + 1
  {
    if |row| < n then []
    else Expand(row[..|row| - n], n, m) + WithAlpha(row[|row| - n..], n, m)
  }

  function WithAlpha(pixel: seq<byte>, n: nat, m: nat): (p: seq<byte>)
    requires |pixel| == n <= m <= n + 1
    ensures |p| == m
  {
    if m > n then pixel + [255] else pixel
  }

  function Pixels(rows: seq<seq<byte>>, n: nat, m: nat): seq<byte>
    requires 0 < n <= m <= n + 1
  {
    if rows == [] then [] else Expand(rows[0], n, m) + Pixels(rows[1..], n, m)
  }

  lemma {:induction false} ExpandLength(row: seq<byte>, n: nat, m: nat, x: nat)
    requires 0 < n <= m <= n + 1 && |row| == x * n
    ensures |Expand(row, n, m)| == x * m
    decreases x
  {
    if x > 0 {
      Less(x, n);
      Less(x, m);
      ExpandLength(row[..|row| - n], n, m, x - 1);
    }
  }

  lemma Less(x: nat, n: nat)
    requires x > 0
    ensures (x - 1) * n == x * n - n >= 0
  {
  }

  lemma {:induction false} SameLength(row: seq<byte>, other: seq<byte>, n: nat, m: nat)
    requires 0 < n <= m <= n + 1 && |row| == |other|
    ensures |Expand(row, n, m)| == |Expand(other, n, m)|
    decreases |row|
  {
    if |row| >= n {
      SameLength(row[..|row| - n], other[..|row| - n], n, m);
    }
  }

  /** A whole number of pixels. */
  ghost predicate Whole(d: nat, n: nat)
    requires n > 0
  {
    d == 0 || (d >= n && Whole(d - n, n))
  }

  lemma {:induction false} WholePixels(x: nat, n: nat)
    requires n > 0
    ensures Whole(x * n, n)
  {
    if x > 0 {
      Less(x, n);
      WholePixels(x - 1, n);
    }
  }

  lemma {:induction false} ExpandSplit(a: seq<byte>, b: seq<byte>, n: nat, m: nat)
    requires 0 < n <= m <= n + 1 && Whole(|b|, n)
    ensures Expand(a + b, n, m) == Expand(a, n, m) + Expand(b, n, m)
    decreases |b|
  {
    hide WithAlpha;
    if b == [] {
      assert a + b == a;
    } else {
      ExpandSplit(a, b[..|b| - n], n, m);
      ExpandLast(a + b, n, m);
      assert (a + b)[..|a + b| - n] == a + b[..|b| - n] && (a + b)[|a + b| - n..] == b[|b| - n..];
    }
  }

  lemma ExpandLast(row: seq<byte>, n: nat, m: nat)
    requires 0 < n <= m <= n + 1 && |row| >= n
    ensures Expand(row, n, m) == Expand(row[..|row| - n], n, m) + WithAlpha(row[|row| - n..], n, m)
  {
  }

  /** The row grown by a pixel. */
  lemma ExpandGrows(row: seq<byte>, n: nat, m: nat, r: nat)
    requires 0 < n <= m <= n + 1 && r + n <= |row|
    ensures Expand(row[..r + n], n, m) == Expand(row[..r], n, m) + WithAlpha(row[r..r + n], n, m)
  {
    hide WithAlpha, Expand;
    ExpandLast(row[..r + n], n, m);
    assert row[..r + n][..r] == row[..r] && row[..r + n][r..] == row[r..r + n];
  }

  /** Where a pixel of a row is in memory. */
  lemma ExpandAt(row: seq<byte>, n: nat, m: nat, r: nat)
    requires 0 < n <= m <= n + 1 && r + n <= |row| && Whole(|row| - r - n, n)
    ensures var before := |Expand(row[..r], n, m)|;
            before + m <= |Expand(row, n, m)| && Expand(row, n, m)[before..before + m] == WithAlpha(row[r..r + n], n, m)
  {
    hide WithAlpha, Expand;
    ExpandSplit(row[..r + n], row[r + n..], n, m);
    ExpandGrows(row, n, m, r);
    assert row == row[..r + n] + row[r + n..];
  }

  lemma {:induction false} PixelsAppends(rows: seq<seq<byte>>, row: seq<byte>, n: nat, m: nat)
    requires 0 < n <= m <= n + 1
    ensures Pixels(rows + [row], n, m) == Pixels(rows, n, m) + Expand(row, n, m)
    decreases |rows|
  {
    hide Expand;
    if rows == [] {
      assert [row][1..] == [] && [] + [row] == [row];
      assert Expand(row, n, m) + [] == [] + Expand(row, n, m);
    } else {
      PixelsAppends(rows[1..], row, n, m);
      assert (rows + [row])[1..] == rows[1..] + [row];
      Regroup(Expand(rows[0], n, m), Pixels(rows[1..], n, m), Expand(row, n, m));
    }
  }
}
